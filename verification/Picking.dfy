/** Choosing the inputs of a compaction (db/version_set.cc, lines 498-538 and 1182-1424). */
module Picking {
  import opened InternalKeys
  import opened Files

  type Bound = Option<UserKey>

  function UserOf(k: Option<IKey>): Bound {
    if k.Some? then Some(k.value.user) else None
  }

  // The files of a list that meet [lo, hi], in list order.
  function Meeting(files: seq<File>, lo: Bound, hi: Bound): seq<File> {
    if files == [] then []
    else
      var init, last := files[..|files| - 1], files[|files| - 1];
      Meeting(init, lo, hi) + if Meets(last, lo, hi) then [last] else []
  }

  lemma {:induction false} MeetingIff(files: seq<File>, lo: Bound, hi: Bound, f: File)
    ensures f in Meeting(files, lo, hi) <==> f in files && Meets(f, lo, hi)
  {
    if files != [] {
      MeetingIff(files[..|files| - 1], lo, hi, f);
      assert files == files[..|files| - 1] + [files[|files| - 1]];
    }
  }

  predicate Inside(f: File, lo: Bound, hi: Bound) {
    && (lo.Some? ==> lo.value <= f.smallest.user)
    && (hi.Some? ==> f.largest.user <= hi.value)
  }

  // No file straddles an end of the range.
  ghost predicate Closed(files: seq<File>, lo: Bound, hi: Bound) {
    forall i :: 0 <= i < |files| && Meets(files[i], lo, hi) ==> Inside(files[i], lo, hi)
  }

  // [lo', hi'] contains [lo, hi] and has the same infinite ends.
  predicate Widens(lo: Bound, hi: Bound, lo': Bound, hi': Bound) {
    && lo.Some? == lo'.Some? && (lo.Some? ==> lo'.value <= lo.value)
    && hi.Some? == hi'.Some? && (hi.Some? ==> hi.value <= hi'.value)
  }

  // Starts and limits still outside the range: what the restarting search has left to absorb.
  ghost function Outside(files: seq<File>, lo: Bound, hi: Bound): nat {
    |set i | 0 <= i < |files| && lo.Some? && files[i].smallest.user < lo.value|
    + |set i | 0 <= i < |files| && hi.Some? && hi.value < files[i].largest.user|
  }

  lemma OutsideShrinks(files: seq<File>, lo: Bound, hi: Bound, lo': Bound, hi': Bound, k: nat)
    requires Widens(lo, hi, lo', hi') && k < |files|
    requires (lo.Some? && lo'.value == files[k].smallest.user < lo.value)
          || (hi.Some? && hi'.value == files[k].largest.user > hi.value)
    ensures Outside(files, lo', hi') < Outside(files, lo, hi)
  {
    var a := set i | 0 <= i < |files| && lo.Some? && files[i].smallest.user < lo.value;
    var a' := set i | 0 <= i < |files| && lo'.Some? && files[i].smallest.user < lo'.value;
    var b := set i | 0 <= i < |files| && hi.Some? && hi.value < files[i].largest.user;
    var b' := set i | 0 <= i < |files| && hi'.Some? && hi'.value < files[i].largest.user;
    assert a' <= a && b' <= b;
    Subsets(a', a, k);
    Subsets(b', b, k);
  }

  lemma Subsets(small: set<int>, big: set<int>, k: int)
    requires small <= big
    ensures |small| <= |big|
    ensures k in big && k !in small ==> |small| < |big|
  {
    assert big == small + (big - small);
    assert k in big && k !in small ==> k in big - small;
  }

  // GetOverlappingInputs: level 0 grows the range until no chosen file straddles it, and the final range is
  // the least closed one around the request; other levels take the files that meet the request.
  method GetOverlappingInputs(level: nat, files: seq<File>, begin: Option<IKey>, end: Option<IKey>)
    returns (inputs: seq<File>, ghost lo: Bound, ghost hi: Bound)
    ensures inputs == Meeting(files, lo, hi)
    ensures level > 0 ==> lo == UserOf(begin) && hi == UserOf(end)
    ensures level == 0 ==> Widens(UserOf(begin), UserOf(end), lo, hi) && Closed(files, lo, hi)
    ensures level == 0 ==> forall a, b :: Closed(files, a, b) && Widens(UserOf(begin), UserOf(end), a, b)
                                          ==> Widens(lo, hi, a, b)
  {
    inputs := [];
    var userBegin, userEnd := UserOf(begin), UserOf(end);
    var i := 0;
    while i < |files|
      invariant 0 <= i <= |files|
      invariant inputs == Meeting(files[..i], userBegin, userEnd)
      invariant level > 0 ==> userBegin == UserOf(begin) && userEnd == UserOf(end)
      invariant Widens(UserOf(begin), UserOf(end), userBegin, userEnd)
      invariant level == 0 ==> Closed(files[..i], userBegin, userEnd)
      invariant level == 0 ==> forall a, b :: Closed(files, a, b) && Widens(UserOf(begin), UserOf(end), a, b)
                                              ==> Widens(userBegin, userEnd, a, b)
      decreases Outside(files, userBegin, userEnd), |files| - i
    {
      var f := files[i];
      assert files[..i + 1][..i] == files[..i];
      i := i + 1;
      if Meets(f, userBegin, userEnd) {
        inputs := inputs + [f];
        if level == 0 {
          if userBegin.Some? && f.smallest.user < userBegin.value {
            OutsideShrinks(files, userBegin, userEnd, Some(f.smallest.user), userEnd, i - 1);
            userBegin := Some(f.smallest.user);
            inputs := [];
            i := 0;
          } else if userEnd.Some? && f.largest.user > userEnd.value {
            OutsideShrinks(files, userBegin, userEnd, userBegin, Some(f.largest.user), i - 1);
            userEnd := Some(f.largest.user);
            inputs := [];
            i := 0;
          }
        }
      }
    }
    assert files[..i] == files;
    lo, hi := userBegin, userEnd;
  }

  // --- Key ranges ---

  ghost predicate IsLargest(files: seq<File>, k: IKey) {
    && (exists i :: 0 <= i < |files| && files[i].largest == k)
    && forall i :: 0 <= i < |files| ==> !Less(k, files[i].largest)
  }

  ghost predicate IsSmallest(files: seq<File>, k: IKey) {
    && (exists i :: 0 <= i < |files| && files[i].smallest == k)
    && forall i :: 0 <= i < |files| ==> !Less(files[i].smallest, k)
  }

  method GetRange(inputs: seq<File>) returns (smallest: IKey, largest: IKey)
    requires inputs != []
    ensures IsSmallest(inputs, smallest) && IsLargest(inputs, largest)
  {
    smallest, largest := inputs[0].smallest, inputs[0].largest;
    for i := 1 to |inputs|
      invariant IsSmallest(inputs[..i], smallest) && IsLargest(inputs[..i], largest)
    {
      var f := inputs[i];
      ghost var done := inputs[..i + 1];
      assert done[..i] == inputs[..i] && done[i] == f;
      if Less(f.smallest, smallest) {
        smallest := f.smallest;
      }
      if Less(largest, f.largest) {
        largest := f.largest;
      }
      assert forall j :: 0 <= j < i ==> done[j] == inputs[..i][j];
    }
    assert inputs[..|inputs|] == inputs;
  }

  // --- Boundary files: the rest of a user key that a chosen file cuts in two ---

  predicate IsBoundary(f: File, largest: IKey) {
    Less(largest, f.smallest) && f.smallest.user == largest.user
  }

  method FindSmallestBoundaryFile(levelFiles: seq<File>, largest: IKey) returns (r: Option<File>)
    ensures r.None? ==> forall i :: 0 <= i < |levelFiles| ==> !IsBoundary(levelFiles[i], largest)
    ensures r.Some? ==> r.value in levelFiles && IsBoundary(r.value, largest)
    ensures r.Some? ==> forall i :: 0 <= i < |levelFiles| && IsBoundary(levelFiles[i], largest)
                                    ==> !Less(levelFiles[i].smallest, r.value.smallest)
  {
    r := None;
    for i := 0 to |levelFiles|
      invariant r.None? ==> forall j :: 0 <= j < i ==> !IsBoundary(levelFiles[j], largest)
      invariant r.Some? ==> r.value in levelFiles && IsBoundary(r.value, largest)
      invariant r.Some? ==> forall j :: 0 <= j < i && IsBoundary(levelFiles[j], largest)
                                        ==> !Less(levelFiles[j].smallest, r.value.smallest)
    {
      var f := levelFiles[i];
      if IsBoundary(f, largest) {
        if r.None? || Less(f.smallest, r.value.smallest) {
          r := Some(f);
        }
      }
    }
  }

  // f lies entirely before g in internal-key order.
  predicate FileBefore(f: File, g: File) {
    Precedes(f.largest, g.smallest)
  }

  // Ascending files of a level with no file of the level in between.
  ghost predicate Consecutive(files: seq<File>, chosen: seq<File>) {
    && Disjoint(chosen)
    && Among(chosen, files)
    && (forall g :: g in files && g !in chosen ==>
          (forall f :: f in chosen ==> FileBefore(g, f)) || (forall f :: f in chosen ==> FileBefore(f, g)))
  }

  lemma DisjointFiles(files: seq<File>, f: File, g: File)
    requires Disjoint(files) && f in files && g in files && f != g
    ensures FileBefore(f, g) || FileBefore(g, f)
  {
  }

  lemma BeforeTransitive(f: File, g: File, h: File)
    requires FileOk(g) && FileBefore(f, g) && FileBefore(g, h)
    ensures FileBefore(f, h)
  {
    FileOrder(g, g.contents[0]);
  }

  // The first boundary file directly follows the files it is appended to.
  lemma BoundaryIsConsecutive(files: seq<File>, chosen: seq<File>, b: File, largest: IKey)
    requires FilesOk(files) && Disjoint(files) && Consecutive(files, chosen)
    requires IsLargest(chosen, largest) && b in files && IsBoundary(b, largest)
    requires forall i :: 0 <= i < |files| && IsBoundary(files[i], largest) ==> !Less(files[i].smallest, b.smallest)
    ensures Consecutive(files, chosen + [b])
  {
    forall f | f in chosen ensures FileBefore(f, b) {
      assert !Less(largest, f.largest);
      FileOrder(b, b.contents[0]);
      FileOrder(f, f.contents[0]);
      DisjointFiles(files, f, b);
    }
    var last :| last in chosen && last.largest == largest;
    var chosen' := chosen + [b];
    forall g | g in files && g !in chosen'
      ensures (forall f :: f in chosen' ==> FileBefore(g, f)) || (forall f :: f in chosen' ==> FileBefore(f, g))
    {
      if forall f :: f in chosen ==> FileBefore(g, f) {
        BeforeTransitive(g, last, b);
      } else {
        DisjointFiles(files, g, b);
        if FileBefore(g, b) {
          FileOrder(g, g.contents[0]);
          assert IsBoundary(g, largest);
          assert false;
        }
      }
    }
  }

  // Files not after `largest`: what the boundary search has consumed.
  ghost function Beyond(files: seq<File>, largest: IKey): set<int> {
    set i | 0 <= i < |files| && Less(largest, files[i].smallest)
  }

  ghost predicate BoundaryClosed(levelFiles: seq<File>, chosen: seq<File>) {
    forall k, i :: IsLargest(chosen, k) && 0 <= i < |levelFiles| ==> !IsBoundary(levelFiles[i], k)
  }

  ghost predicate FirstAfter(files: seq<File>, k: IKey, g: File) {
    IsBoundary(g, k) && forall f :: f in files && IsBoundary(f, k) ==> !Less(f.smallest, g.smallest)
  }

  // b is the first file that continues the last user key of the files before it.
  ghost predicate Continues(files: seq<File>, before: seq<File>, b: File) {
    b in files && exists k :: IsLargest(before, k) && FirstAfter(files, k, b)
  }

  // The picked files followed by their boundary files, as far as they go and nothing else.
  ghost predicate WithBoundaries(files: seq<File>, picked: seq<File>, chosen: seq<File>) {
    && picked <= chosen && BoundaryClosed(files, chosen)
    && forall i :: |picked| <= i < |chosen| ==> Continues(files, chosen[..i], chosen[i])
  }

  // AddBoundaryInputs: appends boundary files until none is left beyond the largest chosen key.
  method AddBoundaryInputs(levelFiles: seq<File>, files: seq<File>) returns (chosen: seq<File>)
    requires FilesOk(levelFiles)
    requires FilesOk(files)
    ensures WithBoundaries(levelFiles, files, chosen)
    ensures BoundaryClosed(levelFiles, files) ==> chosen == files
    ensures Consecutive(levelFiles, files) && Disjoint(levelFiles) ==> Consecutive(levelFiles, chosen)
  {
    chosen := files;
    if files == [] {
      return;
    }
    var _, largest := GetRange(files);
    var searching := true;
    ghost var ordered := Consecutive(levelFiles, files) && Disjoint(levelFiles);
    while searching
      invariant files <= chosen
      invariant forall i :: |files| <= i < |chosen| ==> Continues(levelFiles, chosen[..i], chosen[i])
      invariant BoundaryClosed(levelFiles, files) ==> chosen == files
      invariant ordered ==> Consecutive(levelFiles, chosen)
      invariant IsLargest(chosen, largest)
      invariant !searching ==> forall i :: 0 <= i < |levelFiles| ==> !IsBoundary(levelFiles[i], largest)
      decreases searching, |Beyond(levelFiles, largest)|
    {
      var b := FindSmallestBoundaryFile(levelFiles, largest);
      if b.Some? {
        BoundaryAdvances(levelFiles, chosen, b.value, largest);
        if ordered {
          BoundaryIsConsecutive(levelFiles, chosen, b.value, largest);
        }
        assert FirstAfter(levelFiles, largest, b.value);
        Appends(levelFiles, files, chosen, b.value, largest);
        chosen := chosen + [b.value];
        largest := b.value.largest;
      } else {
        searching := false;
      }
    }
    LargestUnique(chosen, largest);
  }

  lemma Appends(levelFiles: seq<File>, files: seq<File>, chosen: seq<File>, b: File, largest: IKey)
    requires |files| <= |chosen| && forall i :: |files| <= i < |chosen| ==> Continues(levelFiles, chosen[..i], chosen[i])
    requires IsLargest(chosen, largest) && b in levelFiles && FirstAfter(levelFiles, largest, b)
    ensures forall i :: |files| <= i < |chosen + [b]| ==> Continues(levelFiles, (chosen + [b])[..i], (chosen + [b])[i])
  {
    var more := chosen + [b];
    forall i | |files| <= i < |more| ensures Continues(levelFiles, more[..i], more[i]) {
      if i == |chosen| {
        assert more[..i] == chosen;
      } else {
        assert more[..i] == chosen[..i];
      }
    }
  }

  lemma BoundaryAdvances(levelFiles: seq<File>, chosen: seq<File>, b: File, largest: IKey)
    requires FilesOk(levelFiles) && b in levelFiles && IsBoundary(b, largest) && IsLargest(chosen, largest)
    ensures IsLargest(chosen + [b], b.largest)
    ensures |Beyond(levelFiles, b.largest)| < |Beyond(levelFiles, largest)|
  {
    var k :| 0 <= k < |levelFiles| && levelFiles[k] == b;
    FileOrder(b, b.contents[0]);
    Subsets(Beyond(levelFiles, b.largest), Beyond(levelFiles, largest), k);
    assert (chosen + [b])[|chosen|] == b;
  }

  lemma LargestUnique(files: seq<File>, k: IKey)
    requires IsLargest(files, k)
    ensures forall k' :: IsLargest(files, k') ==> k'.user == k.user && Tag(k') == Tag(k) && k' == k
  {
    forall k' | IsLargest(files, k') ensures k'.user == k.user && Tag(k') == Tag(k) && k' == k {
      assert !Less(k, k') && !Less(k', k);
    }
  }

  // --- What a choice of inputs guarantees ---

  // Level 0: no file left behind shares a user key range with a chosen one.  Other levels: consecutive files.
  ghost predicate Pickable(level: nat, files: seq<File>, chosen: seq<File>) {
    && chosen != []
    && Among(chosen, files)
    && (level == 0 ==> forall f, g :: f in chosen && g in files && g !in chosen ==> UserDisjoint(f, g))
    && (level > 0 ==> Consecutive(files, chosen))
  }

  ghost predicate Among(chosen: seq<File>, files: seq<File>) {
    forall f :: f in chosen ==> f in files
  }

  predicate UserDisjoint(f: File, g: File) {
    f.largest.user < g.smallest.user || g.largest.user < f.smallest.user
  }

  // No file left behind holds an older entry of a user key that the chosen files hold.
  ghost predicate LeavesNewer(files: seq<File>, chosen: seq<File>) {
    forall f, g :: f in chosen && g in files && g !in chosen ==> FileNewer(g, f)
  }

  // g lies on one side of all inputs: in user keys of inputs0, in internal keys of inputs1.
  ghost predicate Beside(g: File, inputs0: seq<File>, inputs1: seq<File>) {
    || ((forall f :: f in inputs0 ==> g.largest.user < f.smallest.user) && (forall f :: f in inputs1 ==> FileBefore(g, f)))
    || ((forall f :: f in inputs0 ==> f.largest.user < g.smallest.user) && (forall f :: f in inputs1 ==> FileBefore(f, g)))
  }

  // What a choice of inputs guarantees about the two levels it is taken from.
  ghost predicate Chosen(level: nat, files: seq<File>, next: seq<File>, inputs0: seq<File>, inputs1: seq<File>) {
    && Pickable(level, files, inputs0)
    && LeavesNewer(files, inputs0)
    && Among(inputs1, next) && Disjoint(inputs1)
    && forall g :: g in next && g !in inputs1 ==> Beside(g, inputs0, inputs1)
  }

  lemma {:induction false} MeetingIsDisjoint(files: seq<File>, lo: Bound, hi: Bound)
    requires Disjoint(files)
    ensures Disjoint(Meeting(files, lo, hi))
  {
    if files != [] {
      var n := |files| - 1;
      var rest := Meeting(files[..n], lo, hi);
      MeetingIsDisjoint(files[..n], lo, hi);
      forall f | f in rest ensures FileBefore(f, files[n]) {
        MeetingIff(files[..n], lo, hi, f);
      }
      assert forall i :: 0 <= i < |rest| ==> FileBefore(rest[i], files[n]);
    }
  }

  lemma MeetingIsConsecutive(files: seq<File>, lo: Bound, hi: Bound, n: nat)
    requires FilesOk(files) && Disjoint(files) && n <= |Meeting(files, lo, hi)|
    ensures Consecutive(files, Meeting(files, lo, hi)[..n])
  {
    var all := Meeting(files, lo, hi);
    var chosen := all[..n];
    MeetingIsDisjoint(files, lo, hi);
    forall f ensures f in all <==> f in files && Meets(f, lo, hi) {
      MeetingIff(files, lo, hi, f);
    }
    forall g | g in files && g !in chosen
      ensures (forall f :: f in chosen ==> FileBefore(g, f)) || (forall f :: f in chosen ==> FileBefore(f, g))
    {
      if g in all {
        var k :| 0 <= k < |all| && all[k] == g;
        assert k >= n;
      } else {
        forall f | f in chosen ensures if lo.Some? && g.largest.user < lo.value then FileBefore(g, f) else FileBefore(f, g) {
          DisjointFiles(files, f, g);
          FileOrder(f, f.contents[0]);
          FileOrder(g, g.contents[0]);
        }
      }
    }
  }

  // --- The guarantee: a choice never leaves an older entry of a chosen user key behind on its level ---

  lemma ChoiceLeavesNewer(level: nat, files: seq<File>, chosen: seq<File>)
    requires FilesOk(files) && (level > 0 ==> Disjoint(files))
    requires Pickable(level, files, chosen) && BoundaryClosed(files, chosen)
    ensures LeavesNewer(files, chosen)
  {
    forall f, g | f in chosen && g in files && g !in chosen ensures FileNewer(g, f) {
      if level == 0 {
        DisjointIsNewer(f, g);
      } else {
        ConsecutiveLeavesNewer(files, chosen, f, g);
      }
    }
  }

  lemma DisjointIsNewer(f: File, g: File)
    requires FileOk(f) && FileOk(g) && UserDisjoint(f, g)
    ensures FileNewer(g, f)
  {
    forall e, e' | e' in g.contents && e in f.contents ensures e'.key.user != e.key.user {
      FileOrder(f, e);
      FileOrder(g, e');
    }
  }

  lemma ConsecutiveLeavesNewer(files: seq<File>, chosen: seq<File>, f: File, g: File)
    requires FilesOk(files) && Disjoint(files) && Consecutive(files, chosen) && BoundaryClosed(files, chosen)
    requires f in chosen && g in files && g !in chosen
    ensures FileNewer(g, f)
  {
    forall e, e' | e' in g.contents && e in f.contents && e'.key.user == e.key.user
      ensures e'.key.sequence > e.key.sequence
    {
      FileOrder(f, e);
      FileOrder(g, e');
      if FileBefore(f, g) {
        SubsetOk(files, chosen);
        var last := LastFile(chosen);
        assert false;
      }
    }
  }

  lemma SubsetOk(files: seq<File>, chosen: seq<File>)
    requires FilesOk(files) && Among(chosen, files)
    ensures FilesOk(chosen)
  {
    forall i | 0 <= i < |chosen| ensures FileOk(chosen[i]) {
      assert chosen[i] in files;
    }
  }

  lemma LastFile(chosen: seq<File>) returns (last: File)
    requires chosen != [] && Disjoint(chosen) && FilesOk(chosen)
    ensures last in chosen && IsLargest(chosen, last.largest)
    ensures forall f :: f in chosen ==> f.largest.user <= last.largest.user
  {
    last := chosen[|chosen| - 1];
    LargestAscends(chosen, |chosen| - 1);
  }

  lemma ClosedIsPickable(files: seq<File>, lo: Bound, hi: Bound)
    requires Closed(files, lo, hi) && Meeting(files, lo, hi) != []
    ensures Pickable(0, files, Meeting(files, lo, hi))
  {
    var chosen := Meeting(files, lo, hi);
    forall f ensures f in chosen <==> f in files && Meets(f, lo, hi) {
      MeetingIff(files, lo, hi, f);
    }
    forall f, g | f in chosen && g in files && g !in chosen ensures UserDisjoint(f, g) {
      assert Inside(f, lo, hi);
    }
  }

  // A level-0 choice has no boundary files left to add.
  lemma UserDisjointHasNoBoundary(files: seq<File>, chosen: seq<File>)
    requires FilesOk(files) && Pickable(0, files, chosen)
    ensures BoundaryClosed(files, chosen)
  {
    forall k, i | IsLargest(chosen, k) && 0 <= i < |files| ensures !IsBoundary(files[i], k) {
      var f :| f in chosen && f.largest == k;
      FileOrder(files[i], files[i].contents[0]);
      FileOrder(f, f.contents[0]);
      assert files[i] in chosen ==> !Less(k, files[i].largest);
    }
  }

  lemma NextInputsBeside(next: seq<File>, inputs0: seq<File>, s: IKey, l: IKey)
    requires FilesOk(next) && Disjoint(next) && FilesOk(inputs0) && inputs0 != []
    requires IsSmallest(inputs0, s) && IsLargest(inputs0, l)
    ensures var inputs1 := Meeting(next, Some(s.user), Some(l.user));
            Among(inputs1, next) && Disjoint(inputs1)
            && forall g :: g in next && g !in inputs1 ==> Beside(g, inputs0, inputs1)
  {
    var lo, hi := Some(s.user), Some(l.user);
    var inputs1 := Meeting(next, lo, hi);
    MeetingIsDisjoint(next, lo, hi);
    forall f ensures f in inputs1 <==> f in next && Meets(f, lo, hi) {
      MeetingIff(next, lo, hi, f);
    }
    forall g | g in next && g !in inputs1 ensures Beside(g, inputs0, inputs1) {
      FileOrder(g, g.contents[0]);
      forall f | f in inputs0 ensures s.user <= f.smallest.user && f.largest.user <= l.user {
        assert !Less(f.smallest, s) && !Less(l, f.largest);
      }
      forall f | f in inputs1 ensures if g.largest.user < s.user then FileBefore(g, f) else FileBefore(f, g) {
        DisjointFiles(next, f, g);
        FileOrder(f, f.contents[0]);
      }
    }
  }

  // --- SetupOtherInputs and its callers ---

  type Levels = seq<seq<File>>

  ghost predicate LevelsOk(v: Levels) {
    && |v| == NUM_LEVELS
    && (forall l :: 0 <= l < NUM_LEVELS ==> FilesOk(v[l]))
    && (forall l :: 1 <= l < NUM_LEVELS ==> Disjoint(v[l]))
  }

  datatype Compaction = Compaction(level: nat, inputs0: seq<File>, inputs1: seq<File>,
                                   grandparents: seq<File>, pointer: IKey)

  ghost predicate CompactionOk(v: Levels, c: Compaction) {
    && |v| == NUM_LEVELS && c.level + 1 < NUM_LEVELS
    && Chosen(c.level, v[c.level], v[c.level + 1], c.inputs0, c.inputs1)
  }

  function TotalFileSize(files: seq<File>): nat {
    if files == [] then 0 else files[0].size + TotalFileSize(files[1..])
  }

  // The files of the next level in the range of the inputs.
  ghost predicate NextInputs(next: seq<File>, inputs0: seq<File>, inputs1: seq<File>) {
    exists s, l :: IsSmallest(inputs0, s) && IsLargest(inputs0, l) && inputs1 == Meeting(next, Some(s.user), Some(l.user))
  }

  // The files of a level in the range of all inputs; on level 0 the range grows until no file straddles it.
  ghost predicate InRange(level: nat, files: seq<File>, all: seq<File>, chosen: seq<File>) {
    exists s, l, lo, hi ::
      && IsSmallest(all, s) && IsLargest(all, l) && chosen == Meeting(files, lo, hi)
      && (level > 0 ==> lo == Some(s.user) && hi == Some(l.user))
      && (level == 0 ==> LeastClosed(files, Some(s.user), Some(l.user), lo, hi))
  }

  ghost predicate LeastClosed(files: seq<File>, lo0: Bound, hi0: Bound, lo: Bound, hi: Bound) {
    && Widens(lo0, hi0, lo, hi) && Closed(files, lo, hi)
    && forall a, b :: Closed(files, a, b) && Widens(lo0, hi0, a, b) ==> Widens(lo, hi, a, b)
  }

  // The inputs SetupOtherInputs makes of the picked files: these with their boundary files and what they meet on the
  // next level, grown to all files of the level in that range when this costs no further file of the next level and
  // stays within the size limit.
  ghost predicate SetUp(v: Levels, level: nat, picked: seq<File>, maxFileSize: nat, c: Compaction)
    requires level + 1 < NUM_LEVELS == |v|
  {
    exists plain0, inRange, grown0, grown1 ::
      IsSetUp(v, level, picked, maxFileSize, c, plain0, inRange, grown0, grown1)
  }

  ghost predicate IsSetUp(v: Levels, level: nat, picked: seq<File>, maxFileSize: nat, c: Compaction, plain0: seq<File>,
                          inRange: seq<File>, grown0: seq<File>, grown1: seq<File>)
    requires level + 1 < NUM_LEVELS == |v|
  {
    && c.level == level && WithBoundaries(v[level], picked, plain0) && NextInputs(v[level + 1], plain0, c.inputs1)
    && (c.inputs1 == [] ==> c.inputs0 == plain0)
    && (c.inputs1 != [] ==>
          && InRange(level, v[level], plain0 + c.inputs1, inRange) && WithBoundaries(v[level], inRange, grown0)
          && NextInputs(v[level + 1], grown0, grown1)
          && c.inputs0 == if Grows(plain0, c.inputs1, grown0, grown1, maxFileSize) then grown0 else plain0)
    && IsLargest(c.inputs0, c.pointer)
    && IsGrandparents(v, level, c.inputs0 + c.inputs1, c.grandparents)
  }

  predicate Grows(plain0: seq<File>, plain1: seq<File>, grown0: seq<File>, grown1: seq<File>, maxFileSize: nat) {
    |grown0| > |plain0| && TotalFileSize(plain1) + TotalFileSize(grown0) < 25 * maxFileSize && |grown1| == |plain1|
  }

  ghost predicate IsGrandparents(v: Levels, level: nat, all: seq<File>, files: seq<File>) {
    if level + 2 < |v| then NextInputs(v[level + 2], all, files) else files == []
  }

  method SetupOtherInputs(v: Levels, level: nat, picked: seq<File>, maxFileSize: nat) returns (c: Compaction)
    requires LevelsOk(v) && level + 1 < NUM_LEVELS && Pickable(level, v[level], picked)
    ensures c.level == level && CompactionOk(v, c)
    ensures Among(picked, c.inputs0)
    ensures SetUp(v, level, picked, maxFileSize, c)
  {
    hide Chosen, WithBoundaries, NextInputs, InRange, Pickable, IsGrandparents, IsLargest, LevelsOk;
    var inputs0, inputs1, largest := CompleteInputs(v, level, picked);
    var all := inputs0 + inputs1;
    c := NewCompaction(v, level, inputs0, inputs1, largest);
    if inputs1 == [] {
      assert IsSetUp(v, level, picked, maxFileSize, c, inputs0, [], [], []);
      return;
    }
    PickableOf(v, level, inputs0, inputs1);
    var expanded := Expand(v, level, inputs0, inputs1);
    var expanded0, expanded1, newLimit := CompleteInputs(v, level, expanded);
    if |expanded0| > |inputs0|
       && TotalFileSize(inputs1) + TotalFileSize(expanded0) < 25 * maxFileSize
       && |expanded1| == |inputs1| {
      AmongTransitive(picked, inputs0, expanded);
      AmongTransitive(picked, expanded, expanded0);
      AmongTransitive(inputs0, expanded, expanded0);
      SameNext(v, level, inputs0, inputs1, expanded0, expanded1);
      c := NewCompaction(v, level, expanded0, expanded1, newLimit);
    }
    assert IsSetUp(v, level, picked, maxFileSize, c, inputs0, expanded, expanded0, expanded1);
  }

  lemma LevelsCount(v: Levels)
    requires LevelsOk(v)
    ensures |v| == NUM_LEVELS
  {
  }

  lemma PickableOf(v: Levels, level: nat, inputs0: seq<File>, inputs1: seq<File>)
    requires level + 1 < |v| && Chosen(level, v[level], v[level + 1], inputs0, inputs1)
    ensures Pickable(level, v[level], inputs0) && inputs0 != []
  {
  }

  // Growing the inputs without meeting more files of the next level leaves these the same.
  lemma SameNext(v: Levels, level: nat, inputs0: seq<File>, inputs1: seq<File>, grown0: seq<File>, grown1: seq<File>)
    requires level + 1 < |v| && Among(inputs0, grown0)
    requires NextInputs(v[level + 1], inputs0, inputs1) && NextInputs(v[level + 1], grown0, grown1)
    requires |grown1| == |inputs1|
    ensures grown1 == inputs1
  {
    hide Meeting, IsSmallest, IsLargest, Among;
    var s, l :| IsSmallest(inputs0, s) && IsLargest(inputs0, l) && inputs1 == Meeting(v[level + 1], Some(s.user), Some(l.user));
    var s', l' :| IsSmallest(grown0, s') && IsLargest(grown0, l') && grown1 == Meeting(v[level + 1], Some(s'.user), Some(l'.user));
    WiderRange(inputs0, grown0, s, l, s', l');
    WiderMeets(v[level + 1], Some(s.user), Some(l.user), Some(s'.user), Some(l'.user));
  }

  lemma WiderRange(inputs: seq<File>, grown: seq<File>, s: IKey, l: IKey, s': IKey, l': IKey)
    requires Among(inputs, grown) && IsSmallest(inputs, s) && IsLargest(inputs, l)
    requires IsSmallest(grown, s') && IsLargest(grown, l')
    ensures s'.user <= s.user && l.user <= l'.user
  {
    var f :| f in inputs && f.smallest == s;
    var g :| g in inputs && g.largest == l;
    assert f in grown && g in grown;
  }

  lemma {:induction false} WiderMeets(files: seq<File>, lo: Bound, hi: Bound, lo': Bound, hi': Bound)
    requires Widens(lo, hi, lo', hi')
    ensures |Meeting(files, lo, hi)| <= |Meeting(files, lo', hi')|
    ensures |Meeting(files, lo, hi)| == |Meeting(files, lo', hi')| ==> Meeting(files, lo, hi) == Meeting(files, lo', hi')
  {
    if files != [] {
      WiderMeets(files[..|files| - 1], lo, hi, lo', hi');
    }
  }

  method NewCompaction(v: Levels, level: nat, inputs0: seq<File>, inputs1: seq<File>, largest: IKey)
    returns (c: Compaction)
    requires LevelsOk(v) && level + 1 < NUM_LEVELS
    requires Chosen(level, v[level], v[level + 1], inputs0, inputs1)
    ensures c.level == level && c.inputs0 == inputs0 && c.inputs1 == inputs1 && CompactionOk(v, c)
    ensures c.pointer == largest && IsGrandparents(v, level, inputs0 + inputs1, c.grandparents)
  {
    hide Chosen, LevelsOk, NextInputs;
    LevelsCount(v);
    PickableOf(v, level, inputs0, inputs1);
    var grandparents := Grandparents(v, level, inputs0, inputs1);
    c := Compaction(level, inputs0, inputs1, grandparents, largest);
  }

  lemma AmongTransitive(a: seq<File>, b: seq<File>, c: seq<File>)
    requires Among(a, b) && Among(b, c)
    ensures Among(a, c)
  {
  }

  method Grandparents(v: Levels, level: nat, inputs0: seq<File>, inputs1: seq<File>) returns (files: seq<File>)
    requires LevelsOk(v) && level + 1 < NUM_LEVELS && inputs0 != []
    ensures IsGrandparents(v, level, inputs0 + inputs1, files)
  {
    files := [];
    if level + 2 < NUM_LEVELS {
      var allStart, allLimit := GetRange(inputs0 + inputs1);
      ghost var lo, hi;
      files, lo, hi := GetOverlappingInputs(level + 2, v[level + 2], Some(allStart), Some(allLimit));
    }
  }

  // The boundary files of a choice and the files of the next level that its range meets (lines 1384-1388, and
  // 1399 with 1407-1410 for the enlarged choice).
  method CompleteInputs(v: Levels, level: nat, picked: seq<File>)
    returns (inputs0: seq<File>, inputs1: seq<File>, largest: IKey)
    requires LevelsOk(v) && level + 1 < NUM_LEVELS && Pickable(level, v[level], picked)
    ensures Among(picked, inputs0) && WithBoundaries(v[level], picked, inputs0)
    ensures Chosen(level, v[level], v[level + 1], inputs0, inputs1)
    ensures NextInputs(v[level + 1], inputs0, inputs1) && IsLargest(inputs0, largest)
  {
    hide WithBoundaries;
    inputs0 := AddBoundaries(v, level, picked);
    var smallest, limit := GetRange(inputs0);
    largest := limit;
    var overlapping, _, _ := GetOverlappingInputs(level + 1, v[level + 1], Some(smallest), Some(largest));
    inputs1 := overlapping;
    NextInputsBeside(v[level + 1], inputs0, smallest, largest);
  }

  // Every file of the level in the range of all inputs, level 0 closed under overlap (lines 1392-1398).
  method Expand(v: Levels, level: nat, inputs0: seq<File>, inputs1: seq<File>) returns (expanded: seq<File>)
    requires LevelsOk(v) && level + 1 < NUM_LEVELS && Pickable(level, v[level], inputs0)
    ensures Pickable(level, v[level], expanded)
    ensures Among(inputs0, expanded) && InRange(level, v[level], inputs0 + inputs1, expanded)
  {
    SubsetOk(v[level], inputs0);
    var allStart, allLimit := GetRange(inputs0 + inputs1);
    ghost var lo, hi;
    expanded, lo, hi := GetOverlappingInputs(level, v[level], Some(allStart), Some(allLimit));
    ExpansionContains(v, level, inputs0, inputs0 + inputs1, allStart, allLimit, lo, hi);
    ExpansionIsPickable(v, level, expanded, lo, hi);
  }

  // AddBoundaryInputs on a pickable choice.
  method AddBoundaries(v: Levels, level: nat, picked: seq<File>) returns (inputs: seq<File>)
    requires LevelsOk(v) && level < NUM_LEVELS && Pickable(level, v[level], picked)
    ensures Among(picked, inputs) && FilesOk(inputs) && WithBoundaries(v[level], picked, inputs)
    ensures Pickable(level, v[level], inputs) && LeavesNewer(v[level], inputs)
  {
    SubsetOk(v[level], picked);
    if level == 0 {
      UserDisjointHasNoBoundary(v[0], picked);
    }
    inputs := AddBoundaryInputs(v[level], picked);
    assert forall i :: 0 <= i < |picked| ==> picked[i] == inputs[i];
    assert Among(inputs, v[level]);
    SubsetOk(v[level], inputs);
    ChoiceLeavesNewer(level, v[level], inputs);
  }

  // The enlarged request still meets every file chosen before.
  lemma ExpansionContains(v: Levels, level: nat, inputs: seq<File>, all: seq<File>, start: IKey, limit: IKey,
                          lo: Bound, hi: Bound)
    requires LevelsOk(v) && level < NUM_LEVELS && FilesOk(inputs) && inputs <= all
    requires forall f :: f in inputs ==> f in v[level]
    requires IsSmallest(all, start) && IsLargest(all, limit)
    requires Widens(Some(start.user), Some(limit.user), lo, hi)
    ensures inputs != [] ==> Meeting(v[level], lo, hi) != []
    ensures forall f :: f in inputs ==> f in Meeting(v[level], lo, hi)
  {
    forall f | f in inputs ensures f in Meeting(v[level], lo, hi) {
      var i :| 0 <= i < |inputs| && inputs[i] == f;
      assert all[i] == f;
      FileOrder(f, f.contents[0]);
      MeetingIff(v[level], lo, hi, f);
    }
    assert inputs != [] ==> inputs[0] in inputs;
  }

  lemma ExpansionIsPickable(v: Levels, level: nat, expanded: seq<File>, lo: Bound, hi: Bound)
    requires LevelsOk(v) && level < NUM_LEVELS && expanded != [] && expanded == Meeting(v[level], lo, hi)
    requires level == 0 ==> Closed(v[0], lo, hi)
    ensures Pickable(level, v[level], expanded)
  {
    if level > 0 {
      MeetingIsConsecutive(v[level], lo, hi, |expanded|);
      assert expanded[..|expanded|] == expanded;
    } else {
      ClosedIsPickable(v[0], lo, hi);
    }
  }

  // The files a manual compaction of a range starts from: on level 0 the closed overlap of the request, on other levels
  // the shortest prefix of the files meeting it that reaches the size limit, or all of them.
  ghost predicate Requested(v: Levels, level: nat, lo0: Bound, hi0: Bound, maxFileSize: nat, picked: seq<File>)
    requires level < |v|
  {
    && (level == 0 ==> exists lo, hi :: LeastClosed(v[0], lo0, hi0, lo, hi) && picked == Meeting(v[0], lo, hi))
    && (level > 0 ==>
          var meeting := Meeting(v[level], lo0, hi0);
          && picked <= meeting && picked != []
          && (forall k :: 0 < k < |picked| ==> TotalFileSize(meeting[..k]) < maxFileSize)
          && (picked == meeting || TotalFileSize(picked) >= maxFileSize))
  }

  method CompactRange(v: Levels, level: nat, begin: Option<IKey>, end: Option<IKey>, maxFileSize: nat)
    returns (r: Option<Compaction>, ghost picked: seq<File>)
    requires LevelsOk(v) && level + 1 < NUM_LEVELS
    ensures r.Some? ==> r.value.level == level && CompactionOk(v, r.value)
    ensures r.Some? ==> Requested(v, level, UserOf(begin), UserOf(end), maxFileSize, picked)
    ensures r.Some? ==> SetUp(v, level, picked, maxFileSize, r.value) && Among(picked, r.value.inputs0)
    ensures r.Some? && level == 0 ==> forall f :: f in v[0] && Meets(f, UserOf(begin), UserOf(end)) ==> f in r.value.inputs0
    ensures r.None? <==> forall i :: 0 <= i < |v[level]| ==> !Meets(v[level][i], UserOf(begin), UserOf(end))
  {
    hide SetUp;
    var inputs, lo, hi := GetOverlappingInputs(level, v[level], begin, end);
    NoneMeet(v[level], lo, hi, UserOf(begin), UserOf(end));
    if inputs == [] {
      return None, [];
    }
    ghost var meeting := inputs;
    if level > 0 {
      var n := LimitInputs(inputs, maxFileSize);
      MeetingIsConsecutive(v[level], lo, hi, n);
      inputs := inputs[..n];
      assert forall k :: 0 < k < n ==> inputs[..k] == meeting[..k];
    } else {
      ClosedIsPickable(v[0], lo, hi);
      forall f | f in v[0] && Meets(f, UserOf(begin), UserOf(end)) ensures f in inputs {
        MeetingIff(v[0], lo, hi, f);
      }
    }
    var c := SetupOtherInputs(v, level, inputs, maxFileSize);
    return Some(c), inputs;
  }

  // The shortest prefix of the inputs that reaches the size limit, or all of them (lines 1454-1463).
  method LimitInputs(inputs: seq<File>, limit: nat) returns (n: nat)
    requires inputs != []
    ensures 0 < n <= |inputs|
    ensures forall k :: 0 < k < n ==> TotalFileSize(inputs[..k]) < limit
    ensures n == |inputs| || TotalFileSize(inputs[..n]) >= limit
  {
    var total := 0;
    for i := 0 to |inputs|
      invariant total == TotalFileSize(inputs[..i])
      invariant forall k :: 0 < k <= i ==> TotalFileSize(inputs[..k]) < limit
    {
      total := total + inputs[i].size;
      SizeAppend(inputs[..i], inputs[i]);
      assert inputs[..i] + [inputs[i]] == inputs[..i + 1];
      if total >= limit {
        return i + 1;
      }
    }
    return |inputs|;
  }

  lemma {:induction false} SizeAppend(files: seq<File>, f: File)
    ensures TotalFileSize(files + [f]) == TotalFileSize(files) + f.size
  {
    if files == [] {
      assert files + [f] == [f];
    } else {
      SizeAppend(files[1..], f);
      assert (files + [f])[1..] == files[1..] + [f];
    }
  }

  // A level-0 range grows only around files that already met it.
  lemma NoneMeet(files: seq<File>, lo: Bound, hi: Bound, lo0: Bound, hi0: Bound)
    requires Widens(lo0, hi0, lo, hi)
    requires (lo == lo0 && hi == hi0)
          || (forall a, b :: Closed(files, a, b) && Widens(lo0, hi0, a, b) ==> Widens(lo, hi, a, b))
    ensures Meeting(files, lo, hi) == [] <==> forall i :: 0 <= i < |files| ==> !Meets(files[i], lo0, hi0)
  {
    forall f ensures f in Meeting(files, lo, hi) <==> f in files && Meets(f, lo, hi) {
      MeetingIff(files, lo, hi, f);
    }
    if i :| 0 <= i < |files| && Meets(files[i], lo0, hi0) {
      assert files[i] in Meeting(files, lo, hi);
    } else {
      assert Closed(files, lo0, hi0);
      assert Widens(lo, hi, lo0, hi0);
      assert lo == lo0 && hi == hi0;
      assert forall f :: f !in Meeting(files, lo, hi);
    }
  }

  // The first file after the level's compaction pointer, or the first file of the level when there is none.
  ghost predicate AfterPointer(files: seq<File>, pointer: Option<IKey>, i: nat) {
    && i < |files|
    && (pointer.None? ==> i == 0)
    && (pointer.Some? ==>
          if exists j :: 0 <= j < |files| && Less(pointer.value, files[j].largest)
          then Less(pointer.value, files[i].largest) && forall j :: 0 <= j < i ==> !Less(pointer.value, files[j].largest)
          else i == 0)
  }

  method PickFile(files: seq<File>, pointer: Option<IKey>) returns (f: File, ghost i: nat)
    requires files != []
    ensures AfterPointer(files, pointer, i) && f == files[i]
  {
    for k := 0 to |files|
      invariant pointer.None? ==> k == 0
      invariant pointer.Some? ==> forall j :: 0 <= j < k ==> !Less(pointer.value, files[j].largest)
    {
      if pointer.None? || Less(pointer.value, files[k].largest) {
        return files[k], k;
      }
    }
    return files[0], 0;
  }

  // With the pointer at the end of one file the next one is picked, and after the last one the first: compactions of a
  // level go round its key space.
  lemma PointerGoesRound(files: seq<File>, i: nat, k: nat)
    requires FilesOk(files) && Disjoint(files) && i < |files| && AfterPointer(files, Some(files[i].largest), k)
    ensures k == (i + 1) % |files|
  {
    LargestAscends(files, i);
    forall j | 0 <= j < |files| ensures Less(files[i].largest, files[j].largest) <==> i < j {
      assert j < i ==> Precedes(files[j].largest, files[i].largest);
      assert i < j ==> Precedes(files[i].largest, files[j].largest);
    }
    if i + 1 < |files| {
      assert Less(files[i].largest, files[i + 1].largest);
    }
  }

  // The files a compaction of a level starts from: the picked file, on level 0 with every file that overlaps it.
  ghost predicate Started(v: Levels, level: nat, f: File, picked: seq<File>)
    requires level < |v|
  {
    && f in picked
    && (level > 0 ==> picked == [f])
    && (level == 0 ==> exists lo, hi ::
          LeastClosed(v[0], Some(f.smallest.user), Some(f.largest.user), lo, hi) && picked == Meeting(v[0], lo, hi))
  }

  // PickCompaction once the level is decided: by the file after the compaction pointer when `seekFile` is
  // absent, else by the file that used up its seeks.
  method PickCompaction(v: Levels, level: nat, pointer: Option<IKey>, seekFile: Option<File>, maxFileSize: nat)
    returns (c: Compaction, ghost i: nat, ghost picked: seq<File>)
    requires LevelsOk(v) && level + 1 < NUM_LEVELS && v[level] != []
    requires seekFile.Some? ==> seekFile.value in v[level]
    ensures c.level == level && CompactionOk(v, c) && SetUp(v, level, picked, maxFileSize, c)
    ensures seekFile.Some? ==> Started(v, level, seekFile.value, picked) && seekFile.value in c.inputs0
    ensures seekFile.None? ==>
              AfterPointer(v[level], pointer, i) && Started(v, level, v[level][i], picked) && v[level][i] in c.inputs0
  {
    hide SetUp, AfterPointer;
    var f;
    i := 0;
    if seekFile.Some? {
      f := seekFile.value;
    } else {
      f, i := PickFile(v[level], pointer);
      AfterInFiles(v[level], pointer, i);
    }
    var inputs := [f];
    if level == 0 {
      var smallest, largest := GetRange(inputs);
      ghost var lo, hi;
      FileOrder(f, f.contents[0]);
      inputs, lo, hi := GetOverlappingInputs(0, v[0], Some(smallest), Some(largest));
      MeetingIff(v[0], lo, hi, f);
      ClosedIsPickable(v[0], lo, hi);
      assert smallest == f.smallest && largest == f.largest;
    } else {
      SingleIsConsecutive(v[level], f);
    }
    picked := inputs;
    c := SetupOtherInputs(v, level, inputs, maxFileSize);
  }

  lemma AfterInFiles(files: seq<File>, pointer: Option<IKey>, i: nat)
    requires AfterPointer(files, pointer, i)
    ensures i < |files|
  {
  }

  lemma SingleIsConsecutive(files: seq<File>, f: File)
    requires Disjoint(files) && f in files
    ensures Consecutive(files, [f])
  {
    forall g | g in files && g !in [f] ensures FileBefore(f, g) || FileBefore(g, f) {
      DisjointFiles(files, f, g);
    }
  }
}
