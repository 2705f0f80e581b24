/** DBIter (db/db_iter.cc): a bidirectional cursor over the user keys visible at one sequence number.

    The internal iterator is a position in a strictly sorted run of entries; position |entries| is its one invalid
    state, reached past either end.  saved_key_ is an option: None is the cleared string, and that the code never
    compares against a cleared key is part of what is verified. */
module DbIter {
  import opened InternalKeys
  import opened Cursors

  // --- The specification: a cursor in the sorted map of visible user keys ---

  datatype Row = Row(user: UserKey, value: Bytes)

  // Entry i is the newest visible entry of its user key, and a value.
  ghost predicate Yields(entries: seq<Entry>, s: SequenceNumber, i: int) {
    && 0 <= i < |entries|
    && entries[i].key.sequence <= s && entries[i].key.kind.Value?
    && forall j :: 0 <= j < i && entries[j].key.user == entries[i].key.user ==> entries[j].key.sequence > s
  }

  ghost function ViewUpTo(entries: seq<Entry>, s: SequenceNumber, n: nat): seq<Row>
    requires n <= |entries|
  {
    if n == 0 then []
    else ViewUpTo(entries, s, n - 1) +
         if Yields(entries, s, n - 1) then [Row(entries[n - 1].key.user, entries[n - 1].value)] else []
  }

  // The rows a reader at s sees, in user-key order.
  ghost function View(entries: seq<Entry>, s: SequenceNumber): seq<Row> {
    ViewUpTo(entries, s, |entries|)
  }

  // The row number of a yielding entry.
  ghost function Rank(entries: seq<Entry>, s: SequenceNumber, i: nat): nat
    requires i <= |entries|
  {
    |ViewUpTo(entries, s, i)|
  }

  ghost predicate NoYield(entries: seq<Entry>, s: SequenceNumber, a: int, b: int) {
    forall j :: a <= j < b ==> !Yields(entries, s, j)
  }

  lemma {:induction false} NoYieldSameRank(entries: seq<Entry>, s: SequenceNumber, a: nat, b: nat)
    requires a <= b <= |entries| && NoYield(entries, s, a, b)
    ensures ViewUpTo(entries, s, a) == ViewUpTo(entries, s, b)
    decreases b
  {
    if a < b {
      NoYieldSameRank(entries, s, a, b - 1);
    }
  }

  lemma {:induction false} ViewPrefix(entries: seq<Entry>, s: SequenceNumber, a: nat, b: nat)
    requires a <= b <= |entries|
    ensures ViewUpTo(entries, s, a) <= ViewUpTo(entries, s, b)
    decreases b
  {
    if a < b {
      ViewPrefix(entries, s, a, b - 1);
    }
  }

  lemma YieldIsRow(entries: seq<Entry>, s: SequenceNumber, i: nat)
    requires Yields(entries, s, i)
    ensures Rank(entries, s, i) < |View(entries, s)|
    ensures View(entries, s)[Rank(entries, s, i)] == Row(entries[i].key.user, entries[i].value)
    ensures Rank(entries, s, i + 1) == Rank(entries, s, i) + 1
  {
    ViewPrefix(entries, s, i + 1, |entries|);
  }

  lemma {:induction false} RowIsYield(entries: seq<Entry>, s: SequenceNumber, n: nat, k: nat) returns (i: nat)
    requires n <= |entries| && k < Rank(entries, s, n)
    ensures i < n && Yields(entries, s, i) && Rank(entries, s, i) == k
    ensures ViewUpTo(entries, s, n)[k] == Row(entries[i].key.user, entries[i].value)
  {
    if Yields(entries, s, n - 1) && k == Rank(entries, s, n - 1) {
      i := n - 1;
    } else {
      i := RowIsYield(entries, s, n - 1, k);
    }
  }

  // The view is the map Read describes, in ascending key order.
  lemma ViewIsSortedMap(entries: seq<Entry>, s: SequenceNumber)
    requires Sorted(entries)
    ensures forall k, k' :: 0 <= k < k' < |View(entries, s)| ==> View(entries, s)[k].user < View(entries, s)[k'].user
    ensures forall u, value :: Row(u, value) in View(entries, s) <==> Read(ToSet(entries), u, s) == Some(value)
  {
    forall k, k' | 0 <= k < k' < |View(entries, s)| ensures View(entries, s)[k].user < View(entries, s)[k'].user {
      RowsAscend(entries, s, k, k');
    }
    forall u, value ensures Row(u, value) in View(entries, s) <==> Read(ToSet(entries), u, s) == Some(value) {
      RowIffRead(entries, s, u, value);
    }
  }

  lemma RowsAscend(entries: seq<Entry>, s: SequenceNumber, k: nat, k': nat)
    requires Sorted(entries) && k < k' < |View(entries, s)|
    ensures View(entries, s)[k].user < View(entries, s)[k'].user
  {
    var i := RowIsYield(entries, s, |entries|, k);
    var j := RowIsYield(entries, s, |entries|, k');
    if j < i {
      ViewPrefix(entries, s, j, i);
    }
    assert i < j && Precedes(entries[i].key, entries[j].key);
  }

  lemma RowIffRead(entries: seq<Entry>, s: SequenceNumber, u: UserKey, value: Bytes)
    requires Sorted(entries)
    ensures Row(u, value) in View(entries, s) <==> Read(ToSet(entries), u, s) == Some(value)
  {
    SortedIsUnique(entries);
    if Row(u, value) in View(entries, s) {
      var k :| 0 <= k < |View(entries, s)| && View(entries, s)[k] == Row(u, value);
      var i := RowIsYield(entries, s, |entries|, k);
      YieldIsNewest(entries, s, i);
      ReadNewest(ToSet(entries), u, s, entries[i]);
    }
    if Read(ToSet(entries), u, s) == Some(value) {
      var newest := ReadCases(ToSet(entries), u, s);
      var i :| 0 <= i < |entries| && entries[i] == newest.value;
      NewestYields(entries, s, i);
      YieldIsRow(entries, s, i);
    }
  }

  lemma YieldIsNewest(entries: seq<Entry>, s: SequenceNumber, i: nat)
    requires Sorted(entries) && Yields(entries, s, i)
    ensures IsNewest(ToSet(entries), entries[i].key.user, s, entries[i])
  {
    forall f | f in entries && Shows(f, entries[i].key.user, s) ensures f.key.sequence <= entries[i].key.sequence {
      var j :| 0 <= j < |entries| && entries[j] == f;
      assert j > i ==> Precedes(entries[i].key, entries[j].key);
    }
  }

  lemma NewestYields(entries: seq<Entry>, s: SequenceNumber, i: nat)
    requires Sorted(entries) && i < |entries| && entries[i].key.kind.Value?
    requires IsNewest(ToSet(entries), entries[i].key.user, s, entries[i])
    ensures Yields(entries, s, i)
  {
    forall j | 0 <= j < i && entries[j].key.user == entries[i].key.user ensures entries[j].key.sequence > s {
      assert Precedes(entries[j].key, entries[i].key) && entries[j] in ToSet(entries);
    }
  }

  // --- What the scanning loops maintain ---

  lemma SeekIsResumable(entries: seq<Entry>, s: SequenceNumber, target: UserKey, p: nat)
    requires Sorted(entries) && p == SeekPos(entries, SeekKey(target, s))
    ensures Resumable(entries, s, p, None)
  {
    forall i, j | 0 <= j < p <= i < |entries| && entries[j].key.user == entries[i].key.user
      ensures entries[j].key.sequence > s
    {
      assert i > p ==> Precedes(entries[p].key, entries[i].key);
    }
  }

  // Only invisible entries lie between pos (or the start) and cur, and pos is a visible entry of a smaller key.
  ghost predicate JustBefore(entries: seq<Entry>, s: SequenceNumber, pos: nat, cur: nat) {
    && cur < |entries| && pos <= |entries|
    && (pos < |entries| ==> pos < cur && entries[pos].key.user < entries[cur].key.user && entries[pos].key.sequence <= s)
    && forall j :: (if pos == |entries| then 0 else pos + 1) <= j < cur ==> entries[j].key.sequence > s
  }

  ghost predicate Wanted(entries: seq<Entry>, s: SequenceNumber, j: int, floor: Option<UserKey>) {
    Yields(entries, s, j) && (floor.Some? ==> entries[j].key.user > floor.value)
  }

  ghost predicate NoneWanted(entries: seq<Entry>, s: SequenceNumber, a: int, b: int, floor: Option<UserKey>) {
    forall j :: a <= j < b ==> !Wanted(entries, s, j, floor)
  }

  lemma NoneWantedNoYield(entries: seq<Entry>, s: SequenceNumber, a: int, b: int)
    requires NoneWanted(entries, s, a, b, None)
    ensures NoYield(entries, s, a, b)
  {
    forall j | a <= j < b ensures !Yields(entries, s, j) {
      assert !Wanted(entries, s, j, None);
    }
  }

  // A forward scan from p above `floor` sees every visible entry of each key it can yield.
  ghost predicate Resumable(entries: seq<Entry>, s: SequenceNumber, p: nat, floor: Option<UserKey>) {
    && (forall i, j :: 0 <= j < p <= i < |entries| && entries[j].key.user == entries[i].key.user ==>
          (floor.Some? && entries[i].key.user <= floor.value) || entries[j].key.sequence > s)
    && (forall i :: p <= i < |entries| && entries[i].key.sequence <= s && floor.Some? ==> entries[i].key.user >= floor.value)
  }

  lemma AfterYield(entries: seq<Entry>, s: SequenceNumber, from: nat)
    requires Sorted(entries) && from < |entries|
    ensures Resumable(entries, s, from + 1, Some(entries[from].key.user))
  {
    assert forall j :: 0 <= j < from ==> Precedes(entries[j].key, entries[from].key);
    assert forall j :: from < j < |entries| ==> Precedes(entries[from].key, entries[j].key);
  }

  lemma AfterJustBefore(entries: seq<Entry>, s: SequenceNumber, pos: nat, from: nat)
    requires Sorted(entries) && JustBefore(entries, s, pos, from)
    ensures Resumable(entries, s, if pos == |entries| then 0 else pos + 1, Some(entries[from].key.user))
  {
    assert forall j :: 0 <= j < from ==> Precedes(entries[j].key, entries[from].key);
    assert forall j :: from < j < |entries| ==> Precedes(entries[from].key, entries[j].key);
    assert pos < |entries| ==> forall j :: 0 <= j < pos ==> Precedes(entries[j].key, entries[pos].key);
  }

  // The scan from start has reached pos; everything visible on the way is at or below `skip`.
  ghost predicate Skipped(entries: seq<Entry>, s: SequenceNumber, start: nat, pos: nat,
                          floor: Option<UserKey>, skip: Option<UserKey>) {
    && start <= pos <= |entries| && Resumable(entries, s, start, floor)
    && (forall j :: start <= j < pos && entries[j].key.sequence <= s ==> skip.Some? && entries[j].key.user <= skip.value)
    && (skip.Some? ==> skip == floor || exists j :: start <= j < pos && entries[j].key.sequence <= s && entries[j].key.user == skip.value)
    && NoneWanted(entries, s, start, pos, floor)
    && (floor.Some? ==> skip.Some? && skip.value >= floor.value)
  }

  lemma SkipStep(entries: seq<Entry>, s: SequenceNumber, start: nat, pos: nat,
                 floor: Option<UserKey>, skip: Option<UserKey>)
    requires Sorted(entries) && pos < |entries| && Skipped(entries, s, start, pos, floor, skip)
    ensures var e := entries[pos];
            if entries[pos].key.sequence > s then Skipped(entries, s, start, pos + 1, floor, skip)
            else if e.key.kind.Deletion? then Skipped(entries, s, start, pos + 1, floor, Some(e.key.user))
            else if skip.Some? && e.key.user <= skip.value then Skipped(entries, s, start, pos + 1, floor, skip)
            else Wanted(entries, s, pos, floor)
  {
    var e := entries[pos];
    assert forall j :: 0 <= j < pos ==> Precedes(entries[j].key, e.key);
  }

  lemma NextIsNextRow(entries: seq<Entry>, s: SequenceNumber, from: nat, start: nat, end: nat)
    requires Sorted(entries) && Yields(entries, s, from) && start <= from + 1 && start <= end <= |entries|
    requires end < |entries| ==> Wanted(entries, s, end, Some(entries[from].key.user))
    requires NoneWanted(entries, s, start, end, Some(entries[from].key.user))
    ensures Rank(entries, s, end) == Rank(entries, s, from) + 1
  {
    assert end < |entries| ==> from < end by {
      assert end < from < |entries| ==> Precedes(entries[end].key, entries[from].key);
    }
    forall j | from + 1 <= j < end ensures !Yields(entries, s, j) {
      assert !Wanted(entries, s, j, Some(entries[from].key.user));
      assert Precedes(entries[from].key, entries[j].key);
    }
    YieldIsRow(entries, s, from);
    NoYieldSameRank(entries, s, from + 1, end);
  }

  lemma FirstYieldAfterSeek(entries: seq<Entry>, s: SequenceNumber, target: UserKey, p: nat, end: nat)
    requires Sorted(entries) && p == SeekPos(entries, SeekKey(target, s)) && p <= end <= |entries|
    requires end < |entries| ==> Yields(entries, s, end)
    requires NoYield(entries, s, p, end)
    ensures Rank(entries, s, end) <= |View(entries, s)|
    ensures forall k :: 0 <= k < Rank(entries, s, end) ==> View(entries, s)[k].user < target
    ensures Rank(entries, s, end) < |View(entries, s)| ==> View(entries, s)[Rank(entries, s, end)].user >= target
  {
    ViewPrefix(entries, s, end, |entries|);
    forall k | 0 <= k < Rank(entries, s, end) ensures View(entries, s)[k].user < target {
      var i := RowIsYield(entries, s, end, k);
      assert i < p && Less(entries[i].key, SeekKey(target, s));
    }
    if end < |entries| {
      YieldIsRow(entries, s, end);
      assert end > p ==> Precedes(entries[p].key, entries[end].key);
    }
  }

  // A reverse scan from p has come down to pos (|entries| when it ran out): `found` is the least visible entry seen,
  // when that is a value; nothing else at or below p yields.
  ghost predicate Scanned(entries: seq<Entry>, s: SequenceNumber, p: int, low: int, found: Option<nat>) {
    && 0 <= low <= p + 1 <= |entries|
    && (found.None? ==> NoYield(entries, s, low, p + 1))
    && (found.Some? ==>
          && low <= found.value <= p && entries[found.value].key.sequence <= s && entries[found.value].key.kind.Value?
          && (forall j :: low <= j < found.value ==> entries[j].key.sequence > s)
          && NoYield(entries, s, found.value + 1, p + 1))
  }

  lemma ScanStep(entries: seq<Entry>, s: SequenceNumber, p: int, low: int, found: Option<nat>)
    requires Sorted(entries) && low > 0 && Scanned(entries, s, p, low, found)
    ensures var j := low - 1;
            if entries[j].key.sequence > s then Scanned(entries, s, p, j, found)
            else if found.Some? && entries[j].key.user < entries[found.value].key.user then
              Yields(entries, s, found.value) && JustBefore(entries, s, j, found.value)
            else Scanned(entries, s, p, j, if entries[j].key.kind.Deletion? then None else Some(j))
  {
    var j := low - 1;
    if found.Some? {
      assert Precedes(entries[j].key, entries[found.value].key);
      if entries[j].key.user < entries[found.value].key.user {
        assert forall i :: 0 <= i < j ==> Precedes(entries[i].key, entries[j].key);
      }
    }
  }

  lemma ScanEnd(entries: seq<Entry>, s: SequenceNumber, p: int, found: Option<nat>)
    requires Sorted(entries) && Scanned(entries, s, p, 0, found)
    ensures found.Some? ==> Yields(entries, s, found.value) && JustBefore(entries, s, |entries|, found.value)
    ensures found.None? ==> NoYield(entries, s, 0, p + 1)
  {
  }

  // The row before `from`, once the scan from p below it has ended.
  lemma PrevIsPrevRow(entries: seq<Entry>, s: SequenceNumber, from: nat, p: int, found: Option<nat>)
    requires from <= |entries| && -1 <= p < from && NoYield(entries, s, p + 1, from)
    requires found.Some? ==> found.value <= p && Yields(entries, s, found.value) && NoYield(entries, s, found.value + 1, p + 1)
    requires found.None? ==> NoYield(entries, s, 0, p + 1)
    ensures found.Some? ==> Rank(entries, s, found.value) + 1 == Rank(entries, s, from)
    ensures found.None? ==> Rank(entries, s, from) == 0
  {
    if found.Some? {
      YieldIsRow(entries, s, found.value);
      NoYieldSameRank(entries, s, found.value + 1, from);
    } else {
      NoYieldSameRank(entries, s, 0, from);
    }
  }

  datatype Direction = Forward | Reverse

  class DBIter {
    const entries: seq<Entry>
    const sequence: SequenceNumber
    var pos: nat                      // iter_
    var savedKey: Option<UserKey>     // None when cleared
    var savedValue: Bytes
    var direction: Direction
    var valid: bool

    ghost var current: nat            // the yielding entry this iterator stands for, when valid

    ghost predicate Consistent()
      reads this
    {
      && Sorted(entries) && pos <= |entries|
      && (valid ==> Yields(entries, sequence, current))
      && (valid && direction.Forward? ==> pos == current)
      && (valid && direction.Reverse? ==>
            && savedKey == Some(entries[current].key.user) && savedValue == entries[current].value
            && JustBefore(entries, sequence, pos, current))
    }

    // The row the iterator is at; |view| when it is not valid.
    ghost function Position(): nat
      requires Consistent()
      reads this
    {
      if valid then Rank(entries, sequence, current) else |View(entries, sequence)|
    }

    constructor (entries: seq<Entry>, sequence: SequenceNumber)
      requires Sorted(entries)
      ensures Consistent() && !valid && this.entries == entries && this.sequence == sequence
    {
      this.entries, this.sequence := entries, sequence;
      pos, savedKey, savedValue := |entries|, None, [];
      direction, valid, current := Forward, false, 0;
    }

    method Key() returns (k: UserKey)
      requires Consistent() && valid
      ensures Position() < |View(entries, sequence)| && k == View(entries, sequence)[Position()].user
    {
      YieldIsRow(entries, sequence, current);
      k := if direction.Forward? then entries[pos].key.user else savedKey.value;
    }

    method Value() returns (v: Bytes)
      requires Consistent() && valid
      ensures Position() < |View(entries, sequence)| && v == View(entries, sequence)[Position()].value
    {
      YieldIsRow(entries, sequence, current);
      v := if direction.Forward? then entries[pos].value else savedValue;
    }

    method Next()
      requires Consistent() && valid
      modifies this
      ensures Consistent() && Position() == old(Position()) + 1
    {
      ghost var from := current;
      YieldIsRow(entries, sequence, from);
      if direction.Reverse? {
        AfterJustBefore(entries, sequence, pos, from);
        direction := Forward;
        if pos == |entries| {
          pos := FirstPos(entries);
        } else {
          pos := NextPos(entries, pos);
        }
      } else {
        AfterYield(entries, sequence, from);
        savedKey := Some(entries[pos].key.user);
        pos := NextPos(entries, pos);
      }
      if pos == |entries| {
        valid := false;
        savedKey := None;
        return;
      }
      ghost var start := pos;
      FindNextUserEntry(true);
      NextIsNextRow(entries, sequence, from, start, if valid then current else |entries|);
    }

    // Advances to the first yielding entry from pos on whose user key exceeds the key to skip, if any.
    method FindNextUserEntry(skip: bool)
      requires Sorted(entries) && pos < |entries| && direction.Forward?
      requires skip ==> savedKey.Some?
      requires Resumable(entries, sequence, pos, if skip then savedKey else None)
      modifies this
      ensures Consistent() && direction.Forward?
      ensures valid ==> current >= old(pos) && Wanted(entries, sequence, current, if skip then old(savedKey) else None)
      ensures NoneWanted(entries, sequence, old(pos), if valid then current else |entries|,
                         if skip then old(savedKey) else None)
    {
      hide Resumable, Sorted;
      var skipping := skip;
      ghost var start, floor := pos, if skip then savedKey else None;
      while pos < |entries|
        invariant direction.Forward? && (skipping ==> savedKey.Some?)
        invariant Skipped(entries, sequence, start, pos, floor, if skipping then savedKey else None)
        decreases |entries| - pos
      {
        var ikey := entries[pos].key;
        SkipStep(entries, sequence, start, pos, floor, if skipping then savedKey else None);
        if ikey.sequence <= sequence {
          match ikey.kind {
            case Deletion =>
              savedKey := Some(ikey.user);
              skipping := true;
            case Value =>
              if skipping && ikey.user <= savedKey.value {
                // Entry hidden
              } else {
                valid := true;
                savedKey := None;
                current := pos;
                return;
              }
          }
        }
        pos := NextPos(entries, pos);
      }
      savedKey := None;
      valid := false;
    }

    method Prev()
      requires Consistent() && valid
      modifies this
      ensures Consistent()
      ensures Position() == if old(Position()) == 0 then |View(entries, sequence)| else old(Position()) - 1
    {
      ghost var from := current;
      YieldIsRow(entries, sequence, from);
      if direction.Forward? {
        savedKey := Some(entries[pos].key.user);
        while true
          invariant 0 <= pos <= from && savedKey == Some(entries[from].key.user) && valid && current == from
          invariant entries[pos].key.user == entries[from].key.user
          invariant NoYield(entries, sequence, pos, from)
          decreases pos
        {
          pos := PrevPos(entries, pos);
          if pos == |entries| {
            valid := false;
            savedKey := None;
            savedValue := [];
            NoYieldSameRank(entries, sequence, 0, from);
            return;
          }
          assert forall j :: pos < j < from ==> !Yields(entries, sequence, j);
          if entries[pos].key.user < savedKey.value {
            break;
          }
          assert Precedes(entries[pos].key, entries[from].key);
        }
        direction := Reverse;
      }
      ghost var p: int := if pos == |entries| then -1 else pos;
      assert old(direction).Reverse? ==> NoYield(entries, sequence, p + 1, from);
      FindPrevUserEntry();
      PrevIsPrevRow(entries, sequence, from, p, if valid then Some(current) else None);
    }

    // Scans down from pos for the last yielding entry at or below it.
    method FindPrevUserEntry()
      requires Sorted(entries) && pos <= |entries| && direction.Reverse?
      modifies this
      ensures Consistent() && (valid ==> direction.Reverse?)
      ensures var p: int := if old(pos) == |entries| then -1 else old(pos);
              && (valid ==> current <= p && NoYield(entries, sequence, current + 1, p + 1))
              && (!valid ==> NoYield(entries, sequence, 0, p + 1))
    {
      hide Sorted, Yields, JustBefore;
      ghost var p: int := if pos == |entries| then -1 else pos;
      ghost var found: Option<nat> := None;
      var valueType := Deletion;
      while pos < |entries|
        invariant pos <= |entries| && direction.Reverse?
        invariant Scanned(entries, sequence, p, if pos == |entries| then 0 else pos + 1, found)
        invariant valueType.Value? <==> found.Some?
        invariant found.Some? ==> savedKey == Some(entries[found.value].key.user) && savedValue == entries[found.value].value
        decreases if pos == |entries| then 0 else pos + 1
      {
        var ikey := entries[pos].key;
        ScanStep(entries, sequence, p, pos + 1, found);
        if ikey.sequence <= sequence {
          if valueType.Value? && ikey.user < savedKey.value {
            break;
          }
          valueType := ikey.kind;
          if valueType.Deletion? {
            savedKey := None;
            savedValue := [];
            found := None;
          } else {
            savedKey := Some(entries[pos].key.user);
            savedValue := entries[pos].value;
            found := Some(pos);
          }
        }
        pos := PrevPos(entries, pos);
      }
      if pos == |entries| {
        ScanEnd(entries, sequence, p, found);
      }
      if valueType.Deletion? {
        valid := false;
        savedKey := None;
        savedValue := [];
        direction := Forward;
      } else {
        valid := true;
        current := found.value;
      }
    }

    // Seek: the first row whose key is at or after the target.
    method Seek(target: UserKey)
      requires Consistent()
      modifies this
      ensures Consistent()
      ensures Position() <= |View(entries, sequence)|
      ensures forall k :: 0 <= k < Position() ==> View(entries, sequence)[k].user < target
      ensures Position() < |View(entries, sequence)| ==> View(entries, sequence)[Position()].user >= target
    {
      direction := Forward;
      savedValue := [];
      savedKey := None;
      pos := SeekPos(entries, SeekKey(target, sequence));
      ghost var start := pos;
      if pos < |entries| {
        SeekIsResumable(entries, sequence, target, pos);
        FindNextUserEntry(false);
      } else {
        valid := false;
      }
      ghost var end := if valid then current else |entries|;
      NoneWantedNoYield(entries, sequence, start, end);
      FirstYieldAfterSeek(entries, sequence, target, start, end);
    }

    method SeekToFirst()
      requires Consistent()
      modifies this
      ensures Consistent() && Position() == 0
    {
      direction := Forward;
      savedValue := [];
      pos := FirstPos(entries);
      if pos < |entries| {
        FindNextUserEntry(false);
      } else {
        valid := false;
      }
      ghost var end := if valid then current else |entries|;
      NoneWantedNoYield(entries, sequence, 0, end);
      NoYieldSameRank(entries, sequence, 0, end);
    }

    method SeekToLast()
      requires Consistent()
      modifies this
      ensures Consistent()
      ensures Position() == if View(entries, sequence) == [] then 0 else |View(entries, sequence)| - 1
    {
      direction := Reverse;
      savedValue := [];
      pos := LastPos(entries);
      ghost var p: int := if pos == |entries| then -1 else pos;
      FindPrevUserEntry();
      PrevIsPrevRow(entries, sequence, |entries|, p, if valid then Some(current) else None);
    }
  }

  // --- Every interleaving of calls ---

  ghost function SeekRow(view: seq<Row>, target: UserKey): (p: nat)
    ensures p <= |view|
    ensures forall k :: 0 <= k < p ==> view[k].user < target
    ensures p < |view| ==> view[p].user >= target
  {
    if view == [] || view[0].user >= target then 0
    else
      assert forall k :: 1 <= k < |view| ==> view[k] == view[1..][k - 1];
      1 + SeekRow(view[1..], target)
  }

  ghost function SeekInView(view: seq<Row>): UserKey -> nat {
    target => SeekRow(view, target)
  }

  lemma SeeksRow(view: seq<Row>, target: UserKey, p: nat)
    requires p <= |view| && (forall k :: 0 <= k < p ==> view[k].user < target) && (p < |view| ==> view[p].user >= target)
    ensures SeekInView(view)(target) == p
  {
  }

  lemma InView(it: DBIter)
    requires it.Consistent()
    ensures it.valid <==> it.Position() < |View(it.entries, it.sequence)|
  {
    hide Yields, JustBefore, Sorted;
    if it.valid {
      YieldIsRow(it.entries, it.sequence, it.current);
    }
  }

  // For every sequence of calls, direction switches included, the iterator is a cursor in the view.
  method Drive(it: DBIter, ops: seq<Op<UserKey>>)
    requires it.Consistent()
    modifies it
    ensures it.Consistent()
    ensures it.Position() == CursorRun(|View(it.entries, it.sequence)|, SeekInView(View(it.entries, it.sequence)),
                                      old(it.Position()), ops)
  {
    hide SeekRow, SeekInView, Yields, JustBefore, Sorted, View;
    ghost var view := View(it.entries, it.sequence);
    for i := 0 to |ops|
      invariant it.Consistent()
      invariant it.Position() == CursorRun(|view|, SeekInView(view), old(it.Position()), ops[..i])
    {
      assert ops[..i + 1][..i] == ops[..i];
      InView(it);
      match ops[i] {
        case Seek(target) =>
          it.Seek(target);
          SeeksRow(view, target, it.Position());
        case SeekToFirst => it.SeekToFirst();
        case SeekToLast => it.SeekToLast();
        case Next => if it.valid { it.Next(); }
        case Prev => if it.valid { it.Prev(); }
      }
    }
    assert ops[..|ops|] == ops;
  }
}
