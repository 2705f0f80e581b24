/** Manifest replay (db/version_set.cc 629-730, 909-973): exactly when applying all edits through one Builder gives the
    file lists that the live run reached by applying each edit to a fresh version. */
module Manifest {
  import opened InternalKeys
  import opened Files
  import opened Picking
  import opened VersionBuilder

  function NoFiles(): Levels {
    seq(NUM_LEVELS, _ => [])
  }

  lemma AddsOneMore(added: seq<(nat, File)>, level: nat, file: File)
    ensures forall l: nat, f :: Adds(added + [(level, file)], l, f) <==> Adds(added, l, f) || (l == level && f == file)
  {
    var more := added + [(level, file)];
    forall l: nat, f ensures Adds(more, l, f) <==> Adds(added, l, f) || (l == level && f == file) {
      if Adds(added, l, f) {
        var i :| 0 <= i < |added| && added[i] == (l, f);
        assert more[i] == (l, f);
      }
      if l == level && f == file {
        assert more[|added|] == (l, f);
      }
    }
  }

  // --- Replay through one builder ---

  // Files of a level with the same number and smallest key are the same file; std::set keeps one of such a pair.
  ghost predicate TwinFree(present: seq<File>, added: seq<(nat, File)>, l: nat) {
    && (forall f, g :: f in present && Adds(added, l, g) && Twins(f, g) ==> f == g)
    && (forall f, g :: Adds(added, l, f) && Adds(added, l, g) && Twins(f, g) ==> f == g)
  }

  predicate Twins(f: File, g: File) {
    f.number == g.number && f.smallest == g.smallest
  }

  lemma {:induction false} AddFilesKeeps(st: State, added: seq<(nat, File)>, l: nat)
    requires StateOk(st) && l < NUM_LEVELS
    requires forall i :: 0 <= i < |added| ==> added[i].0 < NUM_LEVELS
    requires TwinFree(st.added[l], added, l)
    ensures Ascending(AddFiles(st, added).added[l])
    ensures forall f :: f in AddFiles(st, added).added[l] <==> f in st.added[l] || Adds(added, l, f)
    ensures forall n :: n in AddFiles(st, added).deleted[l] <==> n in st.deleted[l] && !AddsNumber(added, l, n)
  {
    if added != [] {
      var k := |added| - 1;
      var init, level, file := added[..k], added[k].0, added[k].1;
      assert added == init + [(level, file)];
      AddsOneMore(init, level, file);
      NumbersOneMore(init, level, file);
      AddFilesKeeps(st, init, l);
      var mid := AddFiles(st, init);
      if level == l {
        InsertFileIsAscending(mid.added[l], file);
        forall g | g in mid.added[l] && Twins(g, file) ensures g == file {
          assert Adds(added, l, file) && (g in st.added[l] || Adds(added, l, g));
        }
      }
    }
  }

  lemma NumbersOneMore(added: seq<(nat, File)>, level: nat, file: File)
    ensures forall l: nat, n: nat :: AddsNumber(added + [(level, file)], l, n)
                           <==> AddsNumber(added, l, n) || (l == level && n == file.number)
  {
    var more := added + [(level, file)];
    forall l: nat, n: nat ensures AddsNumber(more, l, n) <==> AddsNumber(added, l, n) || (l == level && n == file.number) {
      if AddsNumber(added, l, n) {
        var i :| 0 <= i < |added| && added[i].0 == l && added[i].1.number == n;
        assert more[i] == added[i];
      }
      if l == level && n == file.number {
        assert more[|added|] == (level, file);
      }
    }
  }

  // The live run: versions[i + 1] is versions[i] with edits[i] applied.
  ghost predicate LiveRun(versions: seq<Levels>, edits: seq<Edit>) {
    && |versions| == |edits| + 1
    && forall i :: 0 <= i < |edits| ==> EditOk(edits[i]) && Applied(versions[i], edits[i], versions[i + 1])
  }

  // The builder's state after the first n edits.
  ghost function Built(edits: seq<Edit>): (st: State)
    requires forall i :: 0 <= i < |edits| ==> EditOk(edits[i])
    ensures |st.deleted| == |st.added| == NUM_LEVELS
  {
    if edits == [] then EmptyState() else ApplyEdit(Built(edits[..|edits| - 1]), edits[|edits| - 1])
  }

  // compact_pointer_ after the edits.
  ghost function PointersAfter(ps: CompactPointers, edits: seq<Edit>): CompactPointers
    requires forall i :: 0 <= i < |edits| ==> EditOk(edits[i])
  {
    if edits == [] then ps
    else
      assert EditOk(edits[|edits| - 1]);
      SetPointers(PointersAfter(ps, edits[..|edits| - 1]), edits[|edits| - 1].pointers)
  }

  // --- Exactly when replay agrees with the live run ---

  // A file of edit i is not deleted afterwards; an edit's own deletions come before its additions.
  ghost predicate Stays(edits: seq<Edit>, l: nat, i: nat, n: nat) {
    forall j :: i < j < |edits| ==> (l, n) !in edits[j].deleted
  }

  ghost predicate EverAdds(edits: seq<Edit>, l: nat, f: File) {
    exists i :: 0 <= i < |edits| && Adds(edits[i].added, l, f)
  }

  ghost predicate LastAdds(edits: seq<Edit>, l: nat, f: File) {
    exists i :: 0 <= i < |edits| && Adds(edits[i].added, l, f) && Stays(edits, l, i, f.number)
  }

  ghost predicate NumberLasts(edits: seq<Edit>, l: nat, n: nat) {
    exists i :: 0 <= i < |edits| && AddsNumber(edits[i].added, l, n) && Stays(edits, l, i, n)
  }

  // No file is left behind under a number that was deleted and then given to another file.
  ghost predicate NoneLeftBehind(edits: seq<Edit>) {
    forall l :: 0 <= l < NUM_LEVELS ==> NoneLeftOn(edits, l)
  }

  ghost predicate NoneLeftOn(edits: seq<Edit>, l: nat) {
    forall f :: EverAdds(edits, l, f) && NumberLasts(edits, l, f.number) ==> LastAdds(edits, l, f)
  }

  ghost predicate NoTwins(edits: seq<Edit>) {
    && (forall i :: 0 <= i < |edits| ==> EditOk(edits[i]))
    && forall l, f, g :: 0 <= l < NUM_LEVELS && EverAdds(edits, l, f) && EverAdds(edits, l, g) && Twins(f, g) ==> f == g
  }

  lemma EverAddsMore(edits: seq<Edit>, e: Edit, l: nat, f: File)
    ensures EverAdds(edits + [e], l, f) <==> EverAdds(edits, l, f) || Adds(e.added, l, f)
    ensures LastAdds(edits + [e], l, f) <==>
              (LastAdds(edits, l, f) && (l, f.number) !in e.deleted) || Adds(e.added, l, f)
  {
    var more := edits + [e];
    assert more[|edits|] == e;
    if EverAdds(edits, l, f) {
      var i :| 0 <= i < |edits| && Adds(edits[i].added, l, f);
      assert more[i] == edits[i];
    }
    if LastAdds(edits, l, f) && (l, f.number) !in e.deleted {
      var i :| 0 <= i < |edits| && Adds(edits[i].added, l, f) && Stays(edits, l, i, f.number);
      assert more[i] == edits[i] && Stays(more, l, i, f.number);
    }
    if Adds(e.added, l, f) {
      assert Stays(more, l, |edits|, f.number);
    }
    if LastAdds(more, l, f) && !Adds(e.added, l, f) {
      var i :| 0 <= i < |more| && Adds(more[i].added, l, f) && Stays(more, l, i, f.number);
      assert Stays(edits, l, i, f.number) by {
        assert forall j :: i < j < |edits| ==> more[j] == edits[j];
      }
    }
  }

  lemma NumberLastsMore(edits: seq<Edit>, e: Edit, l: nat, n: nat)
    ensures NumberLasts(edits + [e], l, n) <==>
              (NumberLasts(edits, l, n) && (l, n) !in e.deleted) || AddsNumber(e.added, l, n)
  {
    var more := edits + [e];
    assert more[|edits|] == e;
    if NumberLasts(edits, l, n) && (l, n) !in e.deleted {
      var i :| 0 <= i < |edits| && AddsNumber(edits[i].added, l, n) && Stays(edits, l, i, n);
      assert more[i] == edits[i] && Stays(more, l, i, n);
    }
    if AddsNumber(e.added, l, n) {
      assert Stays(more, l, |edits|, n);
    }
    if NumberLasts(more, l, n) && !AddsNumber(e.added, l, n) {
      var i :| 0 <= i < |more| && AddsNumber(more[i].added, l, n) && Stays(more, l, i, n);
      assert Stays(edits, l, i, n) by {
        assert forall j :: i < j < |edits| ==> more[j] == edits[j];
      }
    }
  }

  lemma NoTwinsBefore(edits: seq<Edit>, e: Edit)
    requires NoTwins(edits + [e])
    ensures NoTwins(edits) && EditOk(e)
  {
    forall i | 0 <= i < |edits| ensures EditOk(edits[i]) {
      assert (edits + [e])[i] == edits[i];
    }
    assert (edits + [e])[|edits|] == e;
    forall l, f, g | 0 <= l < NUM_LEVELS && EverAdds(edits, l, f) && EverAdds(edits, l, g) && Twins(f, g) ensures f == g {
      EverAddsMore(edits, e, l, f);
      EverAddsMore(edits, e, l, g);
    }
  }

  // The builder keeps every file ever added, and unmarks a number when it is added again.
  lemma {:induction false} BuiltIs(edits: seq<Edit>, l: nat)
    requires NoTwins(edits) && l < NUM_LEVELS
    ensures StateOk(Built(edits))
    ensures forall f :: f in Built(edits).added[l] <==> EverAdds(edits, l, f)
    ensures forall f :: EverAdds(edits, l, f) ==> (f.number !in Built(edits).deleted[l] <==> NumberLasts(edits, l, f.number))
    decreases |edits|, 0
  {
    if edits != [] {
      var n := |edits| - 1;
      var init, e := edits[..n], edits[n];
      assert edits == init + [e];
      NoTwinsBefore(init, e);
      BuiltIs(init, l);
      forall k | 0 <= k < NUM_LEVELS ensures Ascending(Built(edits).added[k]) {
        BuiltStep(init, e, k);
      }
      BuiltStep(init, e, l);
      forall f ensures EverAdds(edits, l, f) <==> EverAdds(init, l, f) || Adds(e.added, l, f) {
        EverAddsMore(init, e, l, f);
      }
      forall f | EverAdds(edits, l, f)
        ensures f.number !in Built(edits).deleted[l] <==> NumberLasts(edits, l, f.number)
      {
        NumberLastsMore(init, e, l, f.number);
        if Adds(e.added, l, f) {
          assert AddsNumber(e.added, l, f.number);
        }
      }
    }
  }

  lemma {:induction false} BuiltStep(init: seq<Edit>, e: Edit, l: nat)
    requires NoTwins(init + [e]) && NoTwins(init) && EditOk(e) && l < NUM_LEVELS
    ensures var st, st' := Built(init), Built(init + [e]);
            && Ascending(st'.added[l])
            && (forall f :: f in st'.added[l] <==> f in st.added[l] || Adds(e.added, l, f))
            && (forall n :: n in st'.deleted[l] <==> (n in st.deleted[l] || (l, n) in e.deleted) && !AddsNumber(e.added, l, n))
    decreases |init|, 1
  {
    BuiltIs(init, l);
    var st := Built(init);
    assert (init + [e])[..|init|] == init;
    assert TwinFree(st.added[l], e.added, l) by {
      forall f ensures EverAdds(init + [e], l, f) <==> EverAdds(init, l, f) || Adds(e.added, l, f) {
        EverAddsMore(init, e, l, f);
      }
    }
    AddFilesKeeps(MarkDeleted(st, e), e.added, l);
    assert forall n :: n in Deletions(e, l) <==> (l, n) in e.deleted;
  }

  // The live version holds the files whose addition was not undone.
  lemma {:induction false} LiveIs(versions: seq<Levels>, edits: seq<Edit>, n: nat, l: nat, f: File)
    requires LiveRun(versions, edits) && versions[0] == NoFiles() && n <= |edits| && l < NUM_LEVELS
    ensures |versions[n]| == NUM_LEVELS && (f in versions[n][l] <==> LastAdds(edits[..n], l, f))
    decreases n
  {
    if n > 0 {
      LiveIs(versions, edits, n - 1, l, f);
      assert edits[..n] == edits[..n - 1] + [edits[n - 1]];
      EverAddsMore(edits[..n - 1], edits[n - 1], l, f);
      assert Applied(versions[n - 1], edits[n - 1], versions[n - 1 + 1]);
    }
  }

  // Replay through one builder gives the live file lists if and only if no file is left behind.
  lemma ReplayIsLiveIff(versions: seq<Levels>, edits: seq<Edit>, v: Levels)
    requires LiveRun(versions, edits) && versions[0] == NoFiles() && NoTwins(edits)
    requires |v| == NUM_LEVELS && forall l :: 0 <= l < NUM_LEVELS ==> Ascending(v[l])
    requires var st := Built(edits); forall l :: 0 <= l < NUM_LEVELS ==> Saved(v[l], [], st.added[l], st.deleted[l])
    ensures v == versions[|edits|] <==> NoneLeftBehind(edits)
  {
    hide Built, Saved, NoTwins, Applied, EditOk, Ascending, NoneLeftOn;
    var live := versions[|edits|];
    LiveLevels(versions, edits);
    forall l | 0 <= l < NUM_LEVELS
      ensures v[l] == live[l] <==> NoneLeftOn(edits, l)
    {
      LevelIsLiveIff(versions, edits, l, v[l]);
    }
  }

  lemma LevelIsLiveIff(versions: seq<Levels>, edits: seq<Edit>, l: nat, files: seq<File>)
    requires LiveRun(versions, edits) && versions[0] == NoFiles() && NoTwins(edits) && l < NUM_LEVELS
    requires Ascending(files) && Saved(files, [], Built(edits).added[l], Built(edits).deleted[l])
    requires |versions[|edits|]| == NUM_LEVELS && Ascending(versions[|edits|][l])
    ensures files == versions[|edits|][l] <==> NoneLeftOn(edits, l)
  {
    hide Built, NoTwins, Applied, EditOk, Ascending, EverAdds, LastAdds, NumberLasts;
    var live := versions[|edits|][l];
    BuiltIs(edits, l);
    assert edits[..|edits|] == edits;
    forall f
      ensures f in live <==> LastAdds(edits, l, f)
      ensures f in files <==> EverAdds(edits, l, f) && NumberLasts(edits, l, f.number)
      ensures LastAdds(edits, l, f) ==> EverAdds(edits, l, f) && NumberLasts(edits, l, f.number)
    {
      LiveIs(versions, edits, |edits|, l, f);
      if LastAdds(edits, l, f) {
        LastsBoth(edits, l, f);
      }
    }
    if NoneLeftOn(edits, l) {
      AscendingUnique(files, live);
    }
  }

  // A number that never names two files on a level, as when no number is added again after it was deleted, is enough.
  ghost predicate NumbersNameOne(edits: seq<Edit>) {
    && (forall i :: 0 <= i < |edits| ==> EditOk(edits[i]))
    && forall l, f, g :: 0 <= l < NUM_LEVELS && EverAdds(edits, l, f) && EverAdds(edits, l, g) && f.number == g.number ==> f == g
  }

  lemma NamingSuffices(edits: seq<Edit>)
    requires NumbersNameOne(edits)
    ensures NoTwins(edits) && NoneLeftBehind(edits)
  {
    forall l, f | 0 <= l < NUM_LEVELS && EverAdds(edits, l, f) && NumberLasts(edits, l, f.number) ensures LastAdds(edits, l, f) {
      var i :| 0 <= i < |edits| && AddsNumber(edits[i].added, l, f.number) && Stays(edits, l, i, f.number);
      var k :| 0 <= k < |edits[i].added| && edits[i].added[k].0 == l && edits[i].added[k].1.number == f.number;
      var g := edits[i].added[k].1;
      assert edits[i].added[k] == (l, g) && Adds(edits[i].added, l, g) && EverAdds(edits, l, g);
    }
  }

  lemma LastsBoth(edits: seq<Edit>, l: nat, f: File)
    requires LastAdds(edits, l, f)
    ensures EverAdds(edits, l, f) && NumberLasts(edits, l, f.number)
  {
    var i :| 0 <= i < |edits| && Adds(edits[i].added, l, f) && Stays(edits, l, i, f.number);
    assert AddsNumber(edits[i].added, l, f.number);
  }

  lemma LiveLevels(versions: seq<Levels>, edits: seq<Edit>)
    requires LiveRun(versions, edits) && versions[0] == NoFiles()
    ensures |versions[|edits|]| == NUM_LEVELS && forall l :: 0 <= l < NUM_LEVELS ==> Ascending(versions[|edits|][l])
  {
    var n := |edits|;
    if n > 0 {
      assert Applied(versions[n - 1], edits[n - 1], versions[n - 1 + 1]);
    }
  }

  // The snapshot of a version, applied to no files, is that version.
  lemma SnapshotApplied(v: Levels, e: Edit)
    requires |v| == NUM_LEVELS && (forall l :: 0 <= l < NUM_LEVELS ==> Ascending(v[l]))
    requires e.deleted == {} && forall l: nat, f :: Adds(e.added, l, f) <==> l < NUM_LEVELS && f in v[l]
    ensures Applied(NoFiles(), e, v)
  {
  }

  // Add a, delete its number, and add b under the same number.
  function ReAdd(level: nat, a: File, b: File): seq<Edit> {
    [Edit({}, [(level, a)], []), Edit({(level, a.number)}, [], []), Edit({}, [(level, b)], [])]
  }

  lemma ReAddBuilt(level: nat, a: File, b: File)
    requires level < NUM_LEVELS && a.number == b.number && KeyOrder(a, b)
    ensures forall i :: 0 <= i < 3 ==> EditOk(ReAdd(level, a, b)[i])
    ensures var st := Built(ReAdd(level, a, b)); st.added[level] == [a, b] && a.number !in st.deleted[level]
  {
    var edits := ReAdd(level, a, b);
    var e0, e1, e2 := edits[0], edits[1], edits[2];
    assert edits[..2] == [e0, e1] && [e0, e1][..1] == [e0] && [e0][..0] == [];
    assert Built([]) == EmptyState();
    var st0, st1 := Built([e0]), Built([e0, e1]);
    OneAdd(EmptyState(), e0, level, a);
    assert [e0][..|[e0]| - 1] == [];
    assert st0 == ApplyEdit(EmptyState(), e0);
    assert InsertFile([], a) == [a] && st0.added[level] == [a];
    assert st1 == ApplyEdit(st0, e1) == MarkDeleted(st0, e1) && st1.added[level] == [a];
    OneAdd(st1, e2, level, b);
    assert Built(edits) == ApplyEdit(st1, e2);
    assert InsertFile([], b) == [b];
    assert InsertFile([a], b) == [a] + InsertFile([a][1..], b);
  }

  // Without the condition replay may differ: a number that is added, deleted and added again with another smallest key
  // brings the old file back.
  lemma ReAddedNumberReturns(level: nat, a: File, b: File, v: Levels, v1: Levels, v2: Levels, live: Levels)
    requires level < NUM_LEVELS && a.number == b.number && KeyOrder(a, b) && |v| == NUM_LEVELS
    requires forall i :: 0 <= i < 3 ==> EditOk(ReAdd(level, a, b)[i])
    requires var st := Built(ReAdd(level, a, b)); Saved(v[level], [], st.added[level], st.deleted[level])
    requires LiveRun([NoFiles(), v1, v2, live], ReAdd(level, a, b))
    ensures a in v[level] && b in v[level]
    ensures |live| == NUM_LEVELS && a !in live[level] && b in live[level]
  {
    ReAddBuilt(level, a, b);
    var vs, edits := [NoFiles(), v1, v2, live], ReAdd(level, a, b);
    assert Applied(vs[1], edits[1], vs[1 + 1]) && Applied(vs[2], edits[2], vs[2 + 1]);
    assert !Adds(edits[1].added, level, a) && a !in v2[level];
    assert edits[2].added[0] == (level, b);
  }

  lemma OneAdd(st: State, e: Edit, level: nat, f: File)
    requires |st.deleted| == |st.added| == NUM_LEVELS && level < NUM_LEVELS && e == Edit({}, [(level, f)], [])
    ensures ApplyEdit(st, e) == AddFile(MarkDeleted(st, e), level, f)
    ensures forall l :: 0 <= l < NUM_LEVELS ==> MarkDeleted(st, e).deleted[l] == st.deleted[l]
  {
    var m := MarkDeleted(st, e);
    assert e.added[..|e.added| - 1] == [] && AddFiles(m, []) == m;
    assert forall l :: 0 <= l < NUM_LEVELS ==> Deletions(e, l) == {};
  }
}
