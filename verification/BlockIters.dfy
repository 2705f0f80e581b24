/** Block::Iter (table/block.cc): a cursor over the bytes of a finished block. */
module BlockIters {
  import opened InternalKeys
  import opened Coding
  import opened Blocks

  // --- The specification: a position in the list of pairs, |pairs| when not valid ---

  ghost predicate SortedBy(rank: Bytes -> real, pairs: seq<Pair>) {
    forall i, j :: 0 <= i < j < |pairs| ==> rank(pairs[i].key) < rank(pairs[j].key)
  }

  function FirstAtLeast(rank: Bytes -> real, pairs: seq<Pair>, target: Bytes): (i: nat)
    ensures i <= |pairs|
    ensures forall j :: 0 <= j < i ==> rank(pairs[j].key) < rank(target)
    ensures i < |pairs| ==> rank(pairs[i].key) >= rank(target)
  {
    if pairs == [] || rank(pairs[0].key) >= rank(target) then 0
    else
      assert forall j :: 1 <= j < |pairs| ==> pairs[j] == pairs[1..][j - 1];
      1 + FirstAtLeast(rank, pairs[1..], target)
  }

  lemma FirstIs(rank: Bytes -> real, pairs: seq<Pair>, target: Bytes, i: nat)
    requires i <= |pairs| && (forall j :: 0 <= j < i ==> rank(pairs[j].key) < rank(target))
    requires i < |pairs| ==> rank(pairs[i].key) >= rank(target)
    ensures FirstAtLeast(rank, pairs, target) == i
  {
  }

  // --- Reading a block ---

  // Sizes are 32-bit.
  ghost predicate BlockOk(pairs: seq<Pair>, interval: nat, restarts: seq<nat>, block: Bytes) {
    && interval > 0 && Finished(pairs, interval, restarts, block) && |block| < TWO32
    && forall i :: 0 <= i < |pairs| ==> |pairs[i].key| + |pairs[i].value| < TWO32
  }

  // A key and its value are no longer than the block that holds them.
  lemma {:induction false} EntryFits(pairs: seq<Pair>, interval: nat, i: nat)
    requires interval > 0 && i < |pairs|
    ensures |pairs[i].key| + |pairs[i].value| <= |Data(pairs[..i + 1], interval)|
    decreases i
  {
    var p := pairs[..i + 1];
    assert p[..i] == pairs[..i];
    if i > 0 {
      EntryFits(pairs, interval, i - 1);
    }
  }

  lemma BlockFits(pairs: seq<Pair>, interval: nat, restarts: seq<nat>, block: Bytes)
    requires interval > 0 && Finished(pairs, interval, restarts, block) && |block| < TWO32
    ensures BlockOk(pairs, interval, restarts, block)
  {
    hide Data, RestartsOk;
    forall i | 0 <= i < |pairs| ensures |pairs[i].key| + |pairs[i].value| < TWO32 {
      EntryFits(pairs, interval, i);
      DataGrows(pairs, interval, i + 1, |pairs|);
      assert pairs[..|pairs|] == pairs;
    }
  }

  lemma RestartReads(pairs: seq<Pair>, interval: nat, restarts: seq<nat>, block: Bytes, j: nat)
    requires BlockOk(pairs, interval, restarts, block) && j < |restarts|
    ensures var base := |Data(pairs, interval)|;
            && base + 4 * j + 4 <= |block|
            && DecodeFixed(block[base + 4 * j..base + 4 * j + 4]) == restarts[j]
            && IsRestart(pairs, interval, j, restarts[j]) && restarts[j] <= base
  {
    hide EncodeFixed, DecodeFixed, Data;
    var data, base := Data(pairs, interval), |Data(pairs, interval)|;
    RestartSlice(restarts, j);
    assert block[base + 4 * j..base + 4 * j + 4] == RestartArray(restarts)[4 * j..4 * j + 4];
    assert IsRestart(pairs, interval, j, restarts[j]);
    WholeOffset(pairs, interval);
    DataGrows(pairs, interval, Start(j, interval), |pairs|);
    Fixed32RoundTrip(restarts[j]);
  }

  lemma CountReads(pairs: seq<Pair>, interval: nat, restarts: seq<nat>, block: Bytes)
    requires BlockOk(pairs, interval, restarts, block)
    ensures |block| == |Data(pairs, interval)| + 4 * |restarts| + 4
    ensures DecodeFixed(block[|block| - 4..]) == |restarts|
  {
    hide EncodeFixed, DecodeFixed, Data;
    assert block[|block| - 4..] == EncodeFixed(|restarts|, 4);
    Fixed32RoundTrip(|restarts|);
  }

  // What is found at the offset of entry i.
  lemma EntryReads(pairs: seq<Pair>, interval: nat, restarts: seq<nat>, block: Bytes, i: nat)
    requires BlockOk(pairs, interval, restarts, block) && i < |pairs|
    ensures var base := |Data(pairs, interval)|;
            var at := Offset(pairs, interval, i);
            var shared := Shared(pairs, interval, i);
            && at < base <= |block|
            && ParseHeader(block[at..base]).Some?
            && var h := ParseHeader(block[at..base]).value;
               && h.shared == shared && h.nonShared == |pairs[i].key| - shared && h.valueLength == |pairs[i].value|
               && at + h.size + h.nonShared + h.valueLength == Offset(pairs, interval, i + 1) <= base
               && block[at + h.size..at + h.size + h.nonShared] == pairs[i].key[shared..]
               && block[at + h.size + h.nonShared..Offset(pairs, interval, i + 1)] == pairs[i].value
  {
    hide Data, ParseHeader, EntryHeader, Shared, RestartArray, EncodeFixed;
    var data, base := Data(pairs, interval), |Data(pairs, interval)|;
    var at, end := Offset(pairs, interval, i), Offset(pairs, interval, i + 1);
    var shared, p := Shared(pairs, interval, i), pairs[i];
    var head := EntryHeader(shared, |p.key| - shared, |p.value|);
    EntryAt(pairs, interval, i);
    HeaderReadsBack(shared, p, data[end..]);
    assert data[at..] == EntryBytes(shared, p) + data[end..];
    assert block[at..base] == data[at..];
    InsideEntry(data, at, head, p.key[shared..], p.value, end);
    assert block[..base] == data;
  }

  lemma InsideEntry(data: Bytes, at: nat, head: Bytes, delta: Bytes, value: Bytes, end: nat)
    requires at <= end <= |data| && data[at..end] == head + delta + value
    ensures at + |head| + |delta| + |value| == end
    ensures data[at + |head|..at + |head| + |delta|] == delta && data[at + |head| + |delta|..end] == value
  {
    var e := data[at..end];
    assert |e| == end - at == |head| + |delta| + |value|;
    assert e[|head|..|head| + |delta|] == delta && e[|head| + |delta|..|e|] == value;
    SubSlice(data, at, end, |head|, |head| + |delta|);
    SubSlice(data, at, end, |head| + |delta|, |e|);
  }

  lemma SubSlice(data: Bytes, at: nat, end: nat, a: nat, b: nat)
    requires at <= end <= |data| && a <= b <= end - at
    ensures data[at..end][a..b] == data[at + a..at + b]
  {
    var x, y, z := data[at..end], data[at..end][a..b], data[at + a..at + b];
    assert forall k :: 0 <= k < b - a ==> y[k] == x[a + k] && x[a + k] == data[at + (a + k)] && z[k] == data[at + a + k];
  }

  class Iter {
    const rank: Bytes -> real
    const block: Bytes
    const restarts: nat          // offset of the restart array
    const numRestarts: nat
    var current: nat             // offset of the current entry; restarts when not valid
    var restartIndex: nat
    var key: Bytes
    var value: Bytes
    var next: nat                // NextEntryOffset

    ghost const pairs: seq<Pair>
    ghost const interval: nat
    ghost const points: seq<nat>
    ghost var pos: nat

    ghost predicate Shape() {
      && interval > 0 && BlockOk(pairs, interval, points, block) && SortedBy(rank, pairs)
      && restarts == |Data(pairs, interval)| && numRestarts == |points|
    }

    ghost predicate Valid()
      reads this
    {
      && Shape() && pos <= |pairs|
      && (pos == |pairs| ==> current == restarts)
      && (pos < |pairs| ==>
            && current == Offset(pairs, interval, pos) && next == Offset(pairs, interval, pos + 1)
            && key == pairs[pos].key && value == pairs[pos].value
            && restartIndex < numRestarts && Start(restartIndex, interval) <= pos)
    }

    // ParseNextKey will read entry i.
    ghost predicate Ready(i: nat)
      reads this
    {
      && Shape() && i <= |pairs| && next == Offset(pairs, interval, i)
      && restartIndex < numRestarts && Start(restartIndex, interval) <= i
      && (i < |pairs| && Shared(pairs, interval, i) > 0 ==> key == pairs[i - 1].key)
    }

    constructor (rank: Bytes -> real, block: Bytes, ghost pairs: seq<Pair>, ghost interval: nat, ghost points: seq<nat>)
      requires BlockOk(pairs, interval, points, block) && SortedBy(rank, pairs)
      ensures Valid() && this.pairs == pairs && this.interval == interval && this.rank == rank && pos == |pairs|
    {
      CountReads(pairs, interval, points, block);
      this.rank, this.block := rank, block;
      var count := DecodeFixed(block[|block| - 4..]);
      numRestarts, restarts := count, |block| - (1 + count) * 4;
      current, restartIndex := |block| - (1 + count) * 4, count;
      key, value, next := [], [], 0;
      this.pairs, this.interval, this.points, pos := pairs, interval, points, |pairs|;
    }

    method IsValid() returns (valid: bool)
      requires Valid()
      ensures valid <==> pos < |pairs|
    {
      hide Data, BlockOk, SortedBy;
      AtEnd(pos);
      valid := current < restarts;
    }

    method Current() returns (p: Pair)
      requires Valid() && pos < |pairs|
      ensures p == pairs[pos]
    {
      hide Data, BlockOk, SortedBy;
      p := Pair(key, value);
    }

    method GetRestartPoint(index: nat) returns (offset: nat)
      requires Shape() && index < numRestarts
      ensures Start(index, interval) <= |pairs| && offset == Offset(pairs, interval, Start(index, interval))
    {
      hide DecodeFixed, Data;
      RestartReads(pairs, interval, points, block, index);
      offset := DecodeFixed(block[restarts + 4 * index..restarts + 4 * index + 4]);
    }

    method SeekToRestartPoint(index: nat)
      requires Shape() && index < numRestarts
      modifies this
      ensures Ready(Start(index, interval))
    {
      hide Data;
      key, restartIndex := [], index;
      next := GetRestartPoint(index);
      value := [];
      StartPlace(index, interval);
    }

    method ParseNextKey(ghost i: nat) returns (ok: bool)
      requires Ready(i)
      modifies this
      ensures Valid() && pos == i && (ok <==> i < |pairs|)
    {
      hide Data, ParseHeader, Shared, BlockOk, Offset, SortedBy;
      current := next;
      AtEnd(i);
      if current >= restarts {
        current, restartIndex, pos := restarts, numRestarts, i;
        return false;
      }
      EntryReads(pairs, interval, points, block, i);
      var h := DecodeEntry(block[current..restarts]);
      KeyRestored(pairs, interval, i, key);
      key := key[..h.value.shared] + block[current + h.value.size..current + h.value.size + h.value.nonShared];
      var end := current + h.value.size + h.value.nonShared + h.value.valueLength;
      value := block[current + h.value.size + h.value.nonShared..end];
      next := end;
      pos := i;
      AdvanceRestart();
      return true;
    }

    lemma AtEnd(i: nat)
      requires Shape() && i <= |pairs|
      ensures Offset(pairs, interval, i) >= restarts <==> i == |pairs|
    {
      hide Data;
      WholeOffset(pairs, interval);
      DataGrows(pairs, interval, i, |pairs|);
    }

    // Keeps restartIndex below the current entry (lines 247-250).
    method AdvanceRestart()
      requires Shape() && pos < |pairs| && current == Offset(pairs, interval, pos)
      requires restartIndex < numRestarts && Start(restartIndex, interval) <= pos
      modifies this`restartIndex
      ensures restartIndex < numRestarts && Start(restartIndex, interval) <= pos
    {
      hide Data, BlockOk;
      while restartIndex + 1 < numRestarts
        invariant restartIndex < numRestarts && Start(restartIndex, interval) <= pos
      {
        var point := GetRestartPoint(restartIndex + 1);
        if point >= current {
          return;
        }
        OffsetsOrder(pairs, interval, Start(restartIndex + 1, interval), pos);
        restartIndex := restartIndex + 1;
      }
    }

    method SeekToFirst()
      requires Valid()
      modifies this
      ensures Valid() && pos == 0
    {
      FirstPoint();
      SeekToRestartPoint(0);
      var _ := ParseNextKey(0);
    }

    lemma FirstPoint()
      requires Shape()
      ensures numRestarts > 0
    {
    }

    method Next()
      requires Valid() && pos < |pairs|
      modifies this
      ensures Valid() && pos == old(pos) + 1
    {
      hide Data, BlockOk;
      var _ := ParseNextKey(pos + 1);
    }

    method Prev()
      requires Valid() && pos < |pairs|
      modifies this
      ensures Valid() && pos == if old(pos) == 0 then |pairs| else old(pos) - 1
    {
      hide Data, BlockOk;
      var original := current;
      var index := RestartBefore();
      if index.None? {
        current, restartIndex, pos := restarts, numRestarts, |pairs|;
        return;
      }
      SeekToRestartPoint(index.value);
      ScanUpTo(original, Start(index.value, interval), old(pos));
    }

    // The last restart point, from restartIndex down, that is before the current entry.
    method RestartBefore() returns (index: Option<nat>)
      requires Valid() && pos < |pairs|
      ensures index.None? ==> pos == 0
      ensures index.Some? ==> index.value < numRestarts && Start(index.value, interval) < pos
    {
      hide Data, BlockOk;
      var i: nat := restartIndex;
      while true
        invariant i < numRestarts && Start(i, interval) <= pos
        decreases i
      {
        var point := GetRestartPoint(i);
        OffsetsOrder(pairs, interval, Start(i, interval), pos);
        if point < current {
          return Some(i);
        }
        if i == 0 {
          return None;
        }
        i := i - 1;
      }
    }

    // Parses entries until the end of one is the start of entry p.
    method ScanUpTo(original: nat, ghost from: nat, ghost p: nat)
      requires Ready(from) && from < p <= |pairs| && original == Offset(pairs, interval, p)
      modifies this
      ensures Valid() && pos == p - 1
    {
      hide Data, BlockOk, Shared;
      ghost var i := from;
      while true
        invariant i < p && Ready(i)
        decreases p - i
      {
        var ok := ParseNextKey(i);
        OffsetsOrder(pairs, interval, i + 1, p);
        if !ok || next >= original {
          return;
        }
        i := i + 1;
      }
    }

    // The binary search over restart keys, then a scan.
    method Seek(target: Bytes)
      requires Valid()
      modifies this
      ensures Valid() && pos == FirstAtLeast(rank, pairs, target)
    {
      hide Data, BlockOk;
      FirstPoint();
      var left := FindRestart(target);
      BeforeRestart(left, target);
      SeekToRestartPoint(left);
      ghost var i := Start(left, interval);
      var scanning := true;
      while scanning
        invariant Shape() && i <= |pairs| && forall j :: 0 <= j < i ==> rank(pairs[j].key) < rank(target)
        invariant scanning ==> Ready(i)
        invariant !scanning ==> Valid() && pos == i && (i < |pairs| ==> rank(pairs[i].key) >= rank(target))
        decreases scanning, |pairs| - i
      {
        var ok := ParseNextKey(i);
        if !ok || rank(key) >= rank(target) {
          scanning := false;
        } else {
          i := i + 1;
        }
      }
      FirstIs(rank, pairs, target, i);
    }

    // The last restart point with a key below the target, or the first.
    method FindRestart(target: Bytes) returns (left: nat)
      requires Shape() && numRestarts > 0
      ensures left < numRestarts
      ensures left > 0 ==> Start(left, interval) < |pairs| && rank(pairs[Start(left, interval)].key) < rank(target)
    {
      hide Data, ParseHeader, Offset, SortedBy;
      left := 0;
      var right := numRestarts - 1;
      while left < right
        invariant left <= right < numRestarts
        invariant left > 0 ==> Start(left, interval) < |pairs| && rank(pairs[Start(left, interval)].key) < rank(target)
      {
        var mid := (left + right + 1) / 2;
        var regionOffset := GetRestartPoint(mid);
        ghost var i := Start(mid, interval);
        RestartInRange(|pairs|, interval, mid);
        StartPlace(mid, interval);
        NonEmpty(mid);
        EntryReads(pairs, interval, points, block, i);
        var h := DecodeEntry(block[regionOffset..restarts]);
        var midKey := block[regionOffset + h.value.size..regionOffset + h.value.size + h.value.nonShared];
        assert midKey == pairs[i].key;
        if rank(midKey) < rank(target) {
          left := mid;
        } else {
          right := mid - 1;
        }
      }
    }

    lemma NonEmpty(j: nat)
      requires Shape() && 0 < j < numRestarts
      ensures |pairs| > 0
    {
    }

    lemma BeforeRestart(left: nat, target: Bytes)
      requires Shape() && left < numRestarts
      requires left > 0 ==> Start(left, interval) < |pairs| && rank(pairs[Start(left, interval)].key) < rank(target)
      ensures Start(left, interval) <= |pairs|
      ensures forall j :: 0 <= j < Start(left, interval) ==> rank(pairs[j].key) < rank(target)
    {
    }

    method SeekToLast()
      requires Valid()
      modifies this
      ensures Valid() && pos == if pairs == [] then 0 else |pairs| - 1
    {
      hide Data, BlockOk;
      FirstPoint();
      LastPoint();
      SeekToRestartPoint(numRestarts - 1);
      ghost var i := Start(numRestarts - 1, interval);
      var more := true;
      while more
        invariant Shape() && i <= |pairs| && (more ==> Ready(i) && (i < |pairs| || pairs == []))
        invariant !more ==> Valid() && pos == if pairs == [] then 0 else |pairs| - 1
        decreases more, |pairs| - i
      {
        var ok := ParseNextKey(i);
        if ok {
          AtEnd(i + 1);
          i := i + 1;
        }
        more := ok && next < restarts;
      }
    }

    lemma LastPoint()
      requires Shape()
      ensures Start(numRestarts - 1, interval) <= |pairs|
      ensures pairs != [] ==> Start(numRestarts - 1, interval) < |pairs|
    {
      hide Data;
      RestartInRange(|pairs|, interval, numRestarts - 1);
    }
  }

  lemma KeyRestored(pairs: seq<Pair>, interval: nat, i: nat, before: Bytes)
    requires interval > 0 && i < |pairs|
    requires Shared(pairs, interval, i) > 0 ==> before == pairs[i - 1].key
    ensures var shared := Shared(pairs, interval, i);
            shared <= |before| && before[..shared] + pairs[i].key[shared..] == pairs[i].key
  {
  }

  // Offsets are in the order of the entries.
  lemma OffsetsOrder(pairs: seq<Pair>, interval: nat, i: nat, j: nat)
    requires interval > 0 && i <= |pairs| && j <= |pairs|
    ensures Offset(pairs, interval, i) < Offset(pairs, interval, j) <==> i < j
  {
    hide Data;
    if i <= j {
      DataGrows(pairs, interval, i, j);
    } else {
      DataGrows(pairs, interval, j, i);
    }
  }
}
