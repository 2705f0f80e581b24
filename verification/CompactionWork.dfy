/** The compaction loop (db/db_impl.cc 887-1009, db/version_set.cc 1510-1553).

    The loop's file cuts depend on table sizes; `fileSize` stands for TableBuilder::FileSize as an arbitrary
    function of the entries added so far. */
module CompactionWork {
  import opened InternalKeys
  import opened Files
  import opened Picking
  import opened CompactionMeaning
  import opened Cursors

  // Some file deeper than the compaction's output level covers u.
  ghost predicate CoveredDeeper(v: Levels, level: nat, u: UserKey) {
    exists l, i :: level + 2 <= l < |v| && 0 <= i < |v[l]| && Covers(v[l][i], u)
  }

  ghost function BaseOf(v: Levels, level: nat): UserKey -> bool {
    u => !CoveredDeeper(v, level, u)
  }

  // last_sequence_for_key when the loop reaches input[i]
  function LastSequence(input: seq<Entry>, i: nat): SequenceNumber
    requires i < |input|
  {
    if i == 0 || input[i - 1].key.user != input[i].key.user then MAX_SEQUENCE else input[i - 1].key.sequence
  }

  ghost predicate Dropped(input: seq<Entry>, i: nat, oldest: SequenceNumber, base: UserKey -> bool)
    requires i < |input|
  {
    || LastSequence(input, i) <= oldest
    || (input[i].key.kind.Deletion? && input[i].key.sequence <= oldest && base(input[i].key.user))
  }

  // The entries among the first n that the loop writes.
  ghost function Kept(input: seq<Entry>, n: nat, oldest: SequenceNumber, base: UserKey -> bool): seq<Entry>
    requires n <= |input|
  {
    if n == 0 then []
    else Kept(input, n - 1, oldest, base) + if Dropped(input, n - 1, oldest, base) then [] else [input[n - 1]]
  }

  // Looking at the previous entry only, the loop drops exactly what the set-based rule drops.
  lemma DroppedIffDrops(input: seq<Entry>, i: nat, oldest: SequenceNumber, base: UserKey -> bool)
    requires Sorted(input) && i < |input| && oldest < MAX_SEQUENCE
    ensures Dropped(input, i, oldest, base) <==> Drops(ToSet(input), oldest, base, input[i])
  {
    var e := input[i];
    if LastSequence(input, i) <= oldest {
      assert Precedes(input[i - 1].key, e.key);
      assert Shows(input[i - 1], e.key.user, oldest) && input[i - 1] in ToSet(input);
    } else {
      forall f | f in input && Shows(f, e.key.user, oldest) && e.key.sequence <= oldest
        ensures f.key.sequence <= e.key.sequence
      {
        var j :| 0 <= j < |input| && input[j] == f;
        assert i > 0 ==> Precedes(input[i - 1].key, e.key);
        assert j < i - 1 ==> Precedes(f.key, input[i - 1].key);
      }
    }
  }

  lemma {:induction false} KeptIff(input: seq<Entry>, n: nat, oldest: SequenceNumber, base: UserKey -> bool, e: Entry)
    requires n <= |input|
    ensures e in Kept(input, n, oldest, base)
            <==> exists i :: 0 <= i < n && input[i] == e && !Dropped(input, i, oldest, base)
  {
    if n > 0 {
      KeptIff(input, n - 1, oldest, base, e);
    }
  }

  // The loop writes exactly the compacted set.
  lemma KeptIsCompacted(input: seq<Entry>, oldest: SequenceNumber, base: UserKey -> bool)
    requires Sorted(input) && oldest < MAX_SEQUENCE
    ensures ToSet(Kept(input, |input|, oldest, base)) == Compacted(ToSet(input), oldest, base)
  {
    forall e ensures e in Kept(input, |input|, oldest, base)
                     <==> e in input && !Drops(ToSet(input), oldest, base, e)
    {
      KeptIff(input, |input|, oldest, base, e);
      forall i | 0 <= i < |input|
        ensures Dropped(input, i, oldest, base) <==> Drops(ToSet(input), oldest, base, input[i])
      {
        DroppedIffDrops(input, i, oldest, base);
      }
    }
  }

  lemma {:induction false} KeptIsSorted(input: seq<Entry>, n: nat, oldest: SequenceNumber, base: UserKey -> bool)
    requires Sorted(input) && n <= |input|
    ensures Sorted(Kept(input, n, oldest, base))
  {
    if n > 0 {
      KeptIsSorted(input, n - 1, oldest, base);
      var rest := Kept(input, n - 1, oldest, base);
      forall k | 0 <= k < |rest| ensures Precedes(rest[k].key, input[n - 1].key) {
        KeptIff(input, n - 1, oldest, base, rest[k]);
      }
    }
  }

  // --- Output files ---

  function Runs(files: seq<File>): (runs: seq<seq<Entry>>)
    ensures |runs| == |files| && forall i :: 0 <= i < |files| ==> runs[i] == files[i].contents
  {
    seq(|files|, i requires 0 <= i < |files| => files[i].contents)
  }

  lemma RunsMore(files: seq<File>, f: File)
    ensures Flat(Runs(files + [f])) == Flat(Runs(files)) + f.contents
  {
    assert Runs(files + [f])[..|files|] == Runs(files);
  }

  predicate Shaped(f: File) {
    && |f.contents| > 0
    && f.smallest == f.contents[0].key
    && f.largest == f.contents[|f.contents| - 1].key
  }

  lemma {:induction false} RunsIff(files: seq<File>, e: Entry)
    ensures e in Flat(Runs(files)) <==> exists f :: f in files && e in f.contents
  {
    if files != [] {
      var n := |files| - 1;
      RunsIff(files[..n], e);
      RunsMore(files[..n], files[n]);
      assert files == files[..n] + [files[n]];
    }
  }

  // Cutting a sorted sequence into nonempty files gives well-formed, disjoint files.
  lemma {:induction false} CutsAreDisjoint(files: seq<File>)
    requires forall i :: 0 <= i < |files| ==> Shaped(files[i])
    requires Sorted(Flat(Runs(files)))
    ensures FilesOk(files) && Disjoint(files)
  {
    hide Flat, Runs;
    if files != [] {
      var n := |files| - 1;
      var init, last := files[..n], files[n];
      var run := Flat(Runs(init));
      RunsMore(init, last);
      assert init + [last] == files;
      SortedParts(run, last.contents);
      CutsAreDisjoint(init);
      forall i | 0 <= i < n ensures Precedes(files[i].largest, last.smallest) {
        var e := init[i].contents[|init[i].contents| - 1];
        assert init[i] in init;
        RunsIff(init, e);
        assert Precedes(e.key, last.contents[0].key);
      }
    }
  }

  lemma SortedParts(a: seq<Entry>, b: seq<Entry>)
    requires Sorted(a + b)
    ensures Sorted(a) && Sorted(b)
    ensures forall e, f :: e in a && f in b ==> Precedes(e.key, f.key)
  {
    var all := a + b;
    assert forall k :: 0 <= k < |a| ==> all[k] == a[k];
    assert forall k :: 0 <= k < |b| ==> all[|a| + k] == b[k];
  }

  // Files a pointer has passed end before the last user key asked about.
  ghost predicate PointersOk(v: Levels, ptrs: seq<nat>, scanned: Option<UserKey>) {
    && |v| == |ptrs| == NUM_LEVELS
    && forall l :: 0 <= l < NUM_LEVELS ==> PointerOk(v[l], ptrs[l], scanned)
  }

  ghost predicate PointerOk(files: seq<File>, ptr: nat, scanned: Option<UserKey>) {
    && ptr <= |files|
    && forall j :: 0 <= j < ptr ==> scanned.Some? && files[j].largest.user < scanned.value
  }

  // Finished outputs carry their own key range and ascending numbers between the first and the next one.
  ghost predicate OutputsOk(outputs: seq<File>, first: nat, next: nat) {
    && (forall i :: 0 <= i < |outputs| ==> Shaped(outputs[i]) && first <= outputs[i].number < next)
    && (forall i, j :: 0 <= i < j < |outputs| ==> outputs[i].number < outputs[j].number)
  }

  // --- How large outputs may get ---

  // Grandparent files that end before k.
  function Passed(grandparents: seq<File>, k: IKey): (n: nat)
    ensures n <= |grandparents|
    ensures forall i :: 0 <= i < n ==> Less(grandparents[i].largest, k)
    ensures n < |grandparents| ==> !Less(grandparents[n].largest, k)
  {
    if grandparents == [] || !Less(grandparents[0].largest, k) then 0
    else
      assert forall i :: 1 <= i < |grandparents| ==> grandparents[i] == grandparents[1..][i - 1];
      1 + Passed(grandparents[1..], k)
  }

  lemma PassedGrows(grandparents: seq<File>, k: IKey, k': IKey)
    requires !Less(k', k)
    ensures Passed(grandparents, k) <= Passed(grandparents, k')
  {
    var n := Passed(grandparents, k');
    assert n < Passed(grandparents, k) ==> Less(grandparents[n].largest, k);
  }

  lemma {:induction false} SizeSplits(files: seq<File>, a: nat, b: nat, c: nat)
    requires a <= b <= c <= |files|
    ensures TotalFileSize(files[a..c]) == TotalFileSize(files[a..b]) + TotalFileSize(files[b..c])
    decreases b - a
  {
    if a < b {
      SizeSplits(files, a + 1, b, c);
      assert files[a..c][1..] == files[a + 1..c] && files[a..b][1..] == files[a + 1..b];
    }
  }

  // The bytes of grandparents from the file at `first` up to but not including number `end`.
  function OverlapFrom(grandparents: seq<File>, first: IKey, end: nat): nat {
    var start := Passed(grandparents, first);
    if start <= end <= |grandparents| then TotalFileSize(grandparents[start..end]) else 0
  }

  // An output passes over at most so many bytes of grandparents between its first and its last key.
  predicate OverlapWithin(grandparents: seq<File>, smallest: IKey, largest: IKey, max: nat) {
    OverlapFrom(grandparents, smallest, Passed(grandparents, largest)) <= max
  }

  // An output was below the maximum size before its last entry came.
  predicate Late(fileSize: seq<Entry> -> nat, max: nat, contents: seq<Entry>) {
    |contents| > 1 ==> fileSize(contents[..|contents| - 1]) < max
  }

  predicate Bounded(grandparents: seq<File>, maxOverlap: nat, fileSize: seq<Entry> -> nat, maxSize: nat, f: File) {
    OverlapWithin(grandparents, f.smallest, f.largest, maxOverlap) && Late(fileSize, maxSize, f.contents)
  }

  // The grandparent pointer, the bytes counted since it was last reset, and the output being built.
  ghost predicate Paced(grandparents: seq<File>, index: nat, seen: Option<IKey>, counted: nat, building: seq<Entry>) {
    && index == (if seen.None? then 0 else Passed(grandparents, seen.value))
    && (building != [] ==>
          && seen.Some? && !Less(seen.value, building[|building| - 1].key) && !Less(seen.value, building[0].key)
          && !Less(building[|building| - 1].key, building[0].key)
          && OverlapFrom(grandparents, building[0].key, index) <= counted)
  }

  // What is being built may become an output.
  lemma PacedIsWithin(grandparents: seq<File>, index: nat, seen: Option<IKey>, counted: nat, building: seq<Entry>, max: nat)
    requires Paced(grandparents, index, seen, counted, building) && building != [] && counted <= max
    ensures OverlapWithin(grandparents, building[0].key, building[|building| - 1].key, max)
  {
    hide Passed, TotalFileSize;
    var a, b := Passed(grandparents, building[0].key), Passed(grandparents, building[|building| - 1].key);
    PassedGrows(grandparents, building[0].key, building[|building| - 1].key);
    PassedGrows(grandparents, building[|building| - 1].key, seen.value);
    SizeSplits(grandparents, a, b, index);
  }

  // The pointer moves on to k.
  lemma PacedMoves(grandparents: seq<File>, index: nat, seen: Option<IKey>, counted: nat, building: seq<Entry>, k: IKey)
    requires Paced(grandparents, index, seen, counted, building) && (seen.Some? ==> !Less(k, seen.value))
    ensures index <= Passed(grandparents, k)
    ensures Paced(grandparents, Passed(grandparents, k), Some(k),
                  counted + if seen.Some? then TotalFileSize(grandparents[index..Passed(grandparents, k)]) else 0, building)
  {
    hide Passed, TotalFileSize;
    if seen.Some? {
      PassedGrows(grandparents, seen.value, k);
    }
    if building != [] {
      PassedGrows(grandparents, building[0].key, seen.value);
      SizeSplits(grandparents, Passed(grandparents, building[0].key), index, Passed(grandparents, k));
    }
  }

  // The entry at the pointer joins the output.
  lemma PacedAdds(grandparents: seq<File>, index: nat, counted: nat, building: seq<Entry>, e: Entry)
    requires Paced(grandparents, index, Some(e.key), counted, building)
    ensures Paced(grandparents, index, Some(e.key), counted, building + [e])
  {
    var more := building + [e];
    assert more[0] == if building == [] then e else building[0];
    assert grandparents[index..index] == [];
  }

  lemma PacedNothing(grandparents: seq<File>, index: nat, seen: Option<IKey>, counted: nat, building: seq<Entry>)
    requires Paced(grandparents, index, seen, counted, building)
    ensures forall n :: Paced(grandparents, index, seen, n, [])
  {
  }

  lemma PacedEmpty(grandparents: seq<File>, index: nat, seen: Option<IKey>, counted: nat)
    ensures index == (if seen.None? then 0 else Passed(grandparents, seen.value)) ==> Paced(grandparents, index, seen, counted, [])
  {
  }

  lemma EmptySize()
    ensures TotalFileSize([]) == 0
  {
  }

  lemma OneFile(files: seq<File>, i: nat)
    requires i < |files|
    ensures TotalFileSize(files[i..i + 1]) == files[i].size
  {
    assert files[i..i + 1][1..] == [];
  }

  class CompactionState {
    const version: Levels
    const compaction: Compaction
    const oldest: SequenceNumber
    const fileSize: seq<Entry> -> nat
    const maxOutputFileSize: nat
    const maxGrandparentOverlap: nat
    const firstFile: nat        // next_file_number_ when the compaction starts

    var levelPtrs: seq<nat>
    var grandparentIndex: nat
    var seenKey: bool
    var overlappedBytes: nat

    var nextFile: nat           // VersionSet::next_file_number_
    var outputs: seq<File>      // finished output files
    var building: seq<Entry>    // what the open builder holds; empty when there is none
    var number: nat             // current_output()
    var smallest: IKey
    var largest: IKey

    ghost var scanned: Option<UserKey>   // the last user key IsBaseLevelForKey was asked about
    ghost var seen: Option<IKey>         // the last key ShouldStopBefore was asked about

    // Every output so far is bounded in size and in overlap, and so is the one being built.
    ghost predicate Pace()
      reads this`grandparentIndex, this`seen, this`seenKey, this`overlappedBytes, this`building, this`outputs
    {
      && Paced(compaction.grandparents, grandparentIndex, seen, overlappedBytes, building)
      && (seenKey <==> seen.Some?) && overlappedBytes <= maxGrandparentOverlap
      && (building != [] ==> fileSize(building) < maxOutputFileSize && Late(fileSize, maxOutputFileSize, building))
      && AllBounded(outputs)
    }

    ghost predicate AllBounded(files: seq<File>)
    {
      forall i :: 0 <= i < |files| ==>
        Bounded(compaction.grandparents, maxGrandparentOverlap, fileSize, maxOutputFileSize, files[i])
    }

    // The bytes counted when the pointer has moved on to k; too many end the output.
    function Counted(k: IKey): nat
      reads this
    {
      var next := Passed(compaction.grandparents, k);
      overlappedBytes
      + if seenKey && grandparentIndex <= next then TotalFileSize(compaction.grandparents[grandparentIndex..next]) else 0
    }

    ghost predicate Valid()
      reads this
    {
      && LevelsOk(version) && compaction.level + 1 < NUM_LEVELS
      && PointersOk(version, levelPtrs, scanned)
      && grandparentIndex <= |compaction.grandparents|
      && firstFile <= nextFile && OutputsOk(outputs, firstFile, if building == [] then nextFile else number)
      && (building != [] ==>
            firstFile <= number < nextFile && smallest == building[0].key && largest == building[|building| - 1].key)
    }

    ghost function Written(): seq<Entry>
      reads this
    {
      Flat(Runs(outputs)) + building
    }

    constructor (v: Levels, c: Compaction, oldest: SequenceNumber, fileSize: seq<Entry> -> nat,
                 maxOutputFileSize: nat, maxGrandparentOverlap: nat, nextFile: nat)
      requires LevelsOk(v) && c.level + 1 < NUM_LEVELS
      ensures Valid() && version == v && compaction == c && this.oldest == oldest
      ensures Written() == [] && scanned == None && firstFile == nextFile && Pace() && seen == None
      ensures this.fileSize == fileSize && this.maxOutputFileSize == maxOutputFileSize
      ensures this.maxGrandparentOverlap == maxGrandparentOverlap
    {
      version, compaction, this.oldest := v, c, oldest;
      this.fileSize, this.maxOutputFileSize := fileSize, maxOutputFileSize;
      this.maxGrandparentOverlap := maxGrandparentOverlap;
      levelPtrs := seq(NUM_LEVELS, _ => 0);
      grandparentIndex, seenKey, overlappedBytes := 0, false, 0;
      firstFile, this.nextFile, outputs, building, number := nextFile, nextFile, [], [], 0;
      smallest, largest := IKey(0.0, 0, Deletion), IKey(0.0, 0, Deletion);
      scanned, seen := None, None;
    }

    // IsBaseLevelForKey: for nondecreasing keys the moving pointers agree with a scan of every deeper level.
    method IsBaseLevelForKey(u: UserKey) returns (base: bool)
      requires Valid() && (scanned.Some? ==> scanned.value <= u)
      modifies this`levelPtrs, this`scanned
      ensures Valid() && scanned == Some(u)
      ensures base <==> !CoveredDeeper(version, compaction.level, u)
    {
      hide OutputsOk, FileOk;
      scanned := Some(u);
      for lvl := compaction.level + 2 to NUM_LEVELS
        invariant Valid() && scanned == Some(u)
        invariant forall l, i :: compaction.level + 2 <= l < lvl && 0 <= i < |version[l]| ==> !Covers(version[l][i], u)
      {
        var files := version[lvl];
        while levelPtrs[lvl] < |files|
          invariant Valid() && scanned == Some(u)
          decreases |files| - levelPtrs[lvl]
        {
          var f := files[levelPtrs[lvl]];
          if u <= f.largest.user {
            if u >= f.smallest.user {
              assert Covers(version[lvl][levelPtrs[lvl]], u);
              return false;
            }
            LargestAscends(files, levelPtrs[lvl]);
            break;
          }
          levelPtrs := levelPtrs[lvl := levelPtrs[lvl] + 1];
        }
        forall i | 0 <= i < |version[lvl]| ensures !Covers(version[lvl][i], u) {
          if levelPtrs[lvl] < i {
            LargestAscends(files, levelPtrs[lvl]);
          }
        }
      }
      return true;
    }

    // The pointer moves past the grandparents that end before k, counting their bytes; more than the limit ends the
    // output, and the count starts again.
    method ShouldStopBefore(k: IKey) returns (stop: bool)
      requires Valid() && Pace() && (seen.Some? ==> !Less(k, seen.value))
      modifies this`grandparentIndex, this`seenKey, this`overlappedBytes, this`seen
      ensures Valid() && seen == Some(k) && seenKey && grandparentIndex == Passed(compaction.grandparents, k)
      ensures stop <==> old(Counted(k)) > maxGrandparentOverlap
      ensures overlappedBytes == if stop then 0 else old(Counted(k))
    {
      hide OutputsOk, PointersOk, LevelsOk, Passed, TotalFileSize;
      var files := compaction.grandparents;
      ghost var start, target := grandparentIndex, Passed(files, k);
      PacedMoves(files, grandparentIndex, seen, overlappedBytes, building, k);
      assert files[start..start] == [];
      EmptySize();
      while grandparentIndex < |files| && Less(files[grandparentIndex].largest, k)
        invariant start <= grandparentIndex <= target && Valid() && seenKey == old(seenKey)
        invariant overlappedBytes == old(overlappedBytes) + if seenKey then TotalFileSize(files[start..grandparentIndex]) else 0
        decreases |files| - grandparentIndex
      {
        if seenKey {
          OneFile(files, grandparentIndex);
          SizeSplits(files, start, grandparentIndex, grandparentIndex + 1);
          overlappedBytes := overlappedBytes + files[grandparentIndex].size;
        }
        grandparentIndex := grandparentIndex + 1;
      }
      seenKey := true;
      seen := Some(k);
      if overlappedBytes > maxGrandparentOverlap {
        overlappedBytes := 0;
        return true;
      }
      return false;
    }

    method FinishOutputFile()
      requires Valid() && building != [] && AllBounded(outputs)
      requires OverlapWithin(compaction.grandparents, smallest, largest, maxGrandparentOverlap)
      requires Late(fileSize, maxOutputFileSize, building)
      modifies this`outputs, this`building
      ensures Valid() && building == [] && Written() == old(Written()) && AllBounded(outputs)
      ensures |outputs| == |old(outputs)| + 1
    {
      hide OverlapWithin, Late;
      var f := File(number, fileSize(building), smallest, largest, building);
      RunsMore(outputs, f);
      outputs := outputs + [f];
      building := [];
    }

    // An output that has reached the maximum size is finished.
    method AddToOutput(e: Entry)
      requires Valid() && Pace() && seen == Some(e.key)
      modifies this`outputs, this`building, this`number, this`smallest, this`largest, this`nextFile
      ensures Valid() && Pace() && Written() == old(Written()) + [e]
      ensures building == if fileSize(old(building) + [e]) >= maxOutputFileSize then [] else old(building) + [e]
    {
      hide Paced, OverlapWithin, PointersOk, LevelsOk, Bounded, Flat, Runs, Valid;
      Append(e);
      PacedIsWithin(compaction.grandparents, grandparentIndex, seen, overlappedBytes, building, maxGrandparentOverlap);
      ghost var full := building;
      if fileSize(building) >= maxOutputFileSize {
        FinishOutputFile();
        PacedNothing(compaction.grandparents, grandparentIndex, seen, overlappedBytes, full);
      }
    }

    // Adds an entry to the open output, or to a new one.
    method Append(e: Entry)
      requires Valid() && Pace() && seen == Some(e.key)
      modifies this`building, this`number, this`smallest, this`largest, this`nextFile
      ensures Valid() && building == old(building) + [e] && Written() == old(Written()) + [e]
      ensures smallest == building[0].key && largest == e.key && AllBounded(outputs)
      ensures Paced(compaction.grandparents, grandparentIndex, seen, overlappedBytes, building)
      ensures Late(fileSize, maxOutputFileSize, building)
    {
      hide Paced, OverlapWithin, PointersOk, LevelsOk, Bounded, Flat, Runs;
      if building == [] {
        number, nextFile := nextFile, nextFile + 1;
        smallest := e.key;
      }
      largest := e.key;
      PacedAdds(compaction.grandparents, grandparentIndex, overlappedBytes, building, e);
      ghost var before := building;
      building := building + [e];
      assert building[..|building| - 1] == before;
    }

    // An output is ended before k exactly when too many bytes of grandparents have been passed.
    method CutBefore(k: IKey)
      requires Valid() && Pace() && (seen.Some? ==> !Less(k, seen.value))
      modifies this`grandparentIndex, this`seenKey, this`overlappedBytes, this`outputs, this`building, this`seen
      ensures Valid() && Pace() && seen == Some(k) && Written() == old(Written())
      ensures building == if old(Counted(k)) > maxGrandparentOverlap then [] else old(building)
    {
      hide Paced, OverlapWithin, PointersOk, LevelsOk, Passed, TotalFileSize;
      var grandparents := compaction.grandparents;
      if building != [] {
        PacedIsWithin(grandparents, grandparentIndex, seen, overlappedBytes, building, maxGrandparentOverlap);
      }
      PacedMoves(grandparents, grandparentIndex, seen, overlappedBytes, building, k);
      var stop := ShouldStopBefore(k);
      PacedNothing(grandparents, grandparentIndex, seen, old(Counted(k)), building);
      if stop && building != [] {
        FinishOutputFile();
      }
      PacedEmpty(grandparents, grandparentIndex, seen, overlappedBytes);
    }

    method ShouldDrop(e: Entry, lastSequenceForKey: SequenceNumber) returns (drop: bool)
      requires Valid() && (scanned.Some? ==> scanned.value <= e.key.user)
      modifies this`levelPtrs, this`scanned
      ensures Valid() && (scanned == old(scanned) || scanned == Some(e.key.user))
      ensures drop <==>
                || lastSequenceForKey <= oldest
                || (e.key.kind.Deletion? && e.key.sequence <= oldest && BaseOf(version, compaction.level)(e.key.user))
    {
      if lastSequenceForKey <= oldest {
        drop := true;
      } else if e.key.kind.Deletion? && e.key.sequence <= oldest {
        drop := IsBaseLevelForKey(e.key.user);
      } else {
        drop := false;
      }
    }

    lemma PaceBounds()
      requires Valid() && Pace()
      ensures AllBounded(outputs)
      ensures building != [] ==> OverlapWithin(compaction.grandparents, smallest, largest, maxGrandparentOverlap)
                                 && Late(fileSize, maxOutputFileSize, building)
    {
      if building != [] {
        PacedIsWithin(compaction.grandparents, grandparentIndex, seen, overlappedBytes, building, maxGrandparentOverlap);
      }
    }

    // One pass of the loop, given last_sequence_for_key for the entry.
    method ProcessEntry(e: Entry, lastSequenceForKey: SequenceNumber)
      requires Valid() && (scanned.Some? ==> scanned.value <= e.key.user)
      requires Pace() && (seen.Some? ==> !Less(e.key, seen.value))
      modifies this
      ensures Valid() && (scanned.Some? ==> scanned.value <= e.key.user)
      ensures Pace() && seen == Some(e.key)
      ensures Written() == old(Written()) +
                if || lastSequenceForKey <= oldest
                   || (e.key.kind.Deletion? && e.key.sequence <= oldest
                       && BaseOf(version, compaction.level)(e.key.user)) then [] else [e]
    {
      hide Pace, Counted;
      CutBefore(e.key);
      var drop := ShouldDrop(e, lastSequenceForKey);
      if !drop {
        AddToOutput(e);
      }
    }

    // DoCompactionWork over the merged inputs: unless the database is shutting down, the output files hold, in order,
    // what the drop rule keeps.  `shutDownAt` is the number of entries processed when another thread sets
    // shutting_down_, if one does.
    method DoCompactionWork(input: seq<Entry>, shutDownAt: Option<nat>) returns (ok: bool)
      requires Valid() && Sorted(input) && Written() == [] && scanned == None && Pace() && seen == None
      modifies this
      ensures Valid() && AllBounded(outputs) && (ok <==> shutDownAt.None?)
      ensures ok ==> building == [] && Flat(Runs(outputs)) == Kept(input, |input|, oldest, BaseOf(version, compaction.level))
    {
      hide PointersOk, OutputsOk, LevelsOk, Runs, Flat, Pace;
      ghost var base := BaseOf(version, compaction.level);
      var currentUserKey: Option<UserKey> := None;
      var lastSequenceForKey: SequenceNumber := MAX_SEQUENCE;
      var i := 0;
      var shuttingDown := shutDownAt == Some(0);
      while i < |input| && !shuttingDown
        invariant shuttingDown ==> shutDownAt.Some?
        invariant 0 <= i <= |input| && Valid() && Written() == Kept(input, i, oldest, base)
        invariant scanned.Some? ==> i > 0 && scanned.value <= input[i - 1].key.user
        invariant Pace() && seen == if i == 0 then None else Some(input[i - 1].key)
        invariant currentUserKey == if i == 0 then None else Some(input[i - 1].key.user)
        invariant i > 0 ==> lastSequenceForKey == input[i - 1].key.sequence
        decreases |input| - i
      {
        var e := input[i];
        assert i > 0 ==> Precedes(input[i - 1].key, e.key);
        if currentUserKey != Some(e.key.user) {
          currentUserKey := Some(e.key.user);
          lastSequenceForKey := MAX_SEQUENCE;
        }
        ProcessEntry(e, lastSequenceForKey);
        lastSequenceForKey := e.key.sequence;
        i := i + 1;
        shuttingDown := shutDownAt.Some? && shutDownAt.value <= i;
      }
      PaceBounds();
      if shutDownAt.Some? {
        return false;
      }
      ok := true;
      if building != [] {
        FinishOutputFile();
      }
    }
  }
}
