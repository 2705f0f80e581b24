/** Two places where the compaction code does not keep what it is meant to keep, each with a concrete state and the
    exact condition under which the property does hold.

    1. SetupOtherInputs closes the inputs at `level` under boundary files but not those at `level + 1`
       (db/version_set.cc 1384-1388), so a dropped deletion can uncover an older value left on the output level.
    2. DoCompactionWork may flush a memtable while it runs (db/db_impl.cc 918-927), and PickLevelForMemTableOutput
       may put that file inside the range of an output that is installed later. */
module Limits {
  import opened InternalKeys
  import opened Files
  import opened Picking
  import opened VersionBuilder
  import opened Versions
  import opened CompactionMeaning
  import opened CompactionWork
  import opened Steps
  import opened Cursors

  function Put(u: UserKey, s: SequenceNumber): Entry {
    Entry(IKey(u, s, Value), [1])
  }

  function Del(u: UserKey, s: SequenceNumber): Entry {
    Entry(IKey(u, s, Deletion), [])
  }

  // --- 1. A user key split over two files of the output level ---

  const SPLIT_A := TableOf(10, 1, [Put(5.0, 20)])
  const SPLIT_F := TableOf(11, 1, [Put(5.0, 1), Del(7.0, 9)])
  const SPLIT_G := TableOf(12, 1, [Put(7.0, 3)])

  function SplitVersion(): Levels {
    [[], [SPLIT_A], [SPLIT_F, SPLIT_G], [], [], [], []]
  }

  function SplitCompaction(): Compaction {
    Compaction(1, [SPLIT_A], [SPLIT_F], [], SPLIT_A.largest)
  }

  lemma SplitFiles()
    ensures FileOk(SPLIT_A) && FileOk(SPLIT_F) && FileOk(SPLIT_G)
    ensures FileNewer(SPLIT_A, SPLIT_F) && FileNewer(SPLIT_A, SPLIT_G) && !FileNewer(SPLIT_G, SPLIT_F)
    ensures FileBefore(SPLIT_F, SPLIT_G)
  {
    assert SPLIT_F.contents[1] == Del(7.0, 9) && SPLIT_G.contents[0] == Put(7.0, 3);
  }

  lemma SplitFileAt(l: int, f: File)
    ensures FileAt(SplitVersion(), l, f) <==> (l == 1 && f == SPLIT_A) || (l == 2 && (f == SPLIT_F || f == SPLIT_G))
  {
    assert SplitVersion()[2][1] == SPLIT_G;
  }

  // One file on level 1 and two disjoint files on level 2.
  lemma ThreeFilesOk(a: File, f: File, g: File, v: Levels)
    requires v == [[], [a], [f, g], [], [], [], []]
    requires FileOk(a) && FileOk(f) && FileOk(g) && a.number < f.number < g.number
    requires FileNewer(a, f) && FileNewer(a, g) && FileBefore(f, g)
    ensures VersionOk(v)
  {
    hide FileNewer, FileOk, FilesOk, Disjoint, Ascending;
    forall l, x ensures FileAt(v, l, x) <==> (l == 1 && x == a) || (l == 2 && (x == f || x == g)) {
      ThreeFilesAt(a, f, g, v, l, x);
    }
    ThreeLevelsOk(a, f, g, v);
    forall l, m, x, y | 0 <= l < m < |v| && x in v[l] && y in v[m] ensures FileNewer(x, y) {
      assert FileAt(v, l, x) && FileAt(v, m, y);
    }
  }

  lemma ThreeFilesAt(a: File, f: File, g: File, v: Levels, l: int, x: File)
    requires v == [[], [a], [f, g], [], [], [], []]
    ensures FileAt(v, l, x) <==> (l == 1 && x == a) || (l == 2 && (x == f || x == g))
  {
    assert v[2][0] == f && v[2][1] == g;
  }

  lemma ThreeLevelsOk(a: File, f: File, g: File, v: Levels)
    requires v == [[], [a], [f, g], [], [], [], []]
    requires FileOk(a) && FileOk(f) && FileOk(g) && FileBefore(f, g)
    ensures LevelsOk(v) && forall l :: 0 <= l < NUM_LEVELS ==> Ascending(v[l])
  {
    FileOrder(f, f.contents[0]);
    assert KeyOrder(f, g);
    assert forall l :: 0 <= l < NUM_LEVELS ==> v[l] == [] || v[l] == [a] || v[l] == [f, g];
  }

  lemma SplitVersionOk()
    ensures DatabaseOk(Database([], [], SplitVersion()))
  {
    hide VersionOk, FileOk, FileNewer, FileBefore;
    SplitFiles();
    ThreeFilesOk(SPLIT_A, SPLIT_F, SPLIT_G, SplitVersion());
  }

  lemma SplitCompactionOk()
    ensures CompactionOk(SplitVersion(), SplitCompaction())
    ensures SplitCompaction().inputs1 == Meeting(SplitVersion()[2], Some(5.0), Some(5.0))
  {
    var v, c := SplitVersion(), SplitCompaction();
    SplitFiles();
    assert v[2][..1] == [SPLIT_F] && v[2][..1][..0] == [];
    assert Consecutive(v[1], c.inputs0);
    assert Beside(SPLIT_G, c.inputs0, c.inputs1);
  }

  // What the compaction of that state at snapshot 10 writes, and the version it installs.
  const SPLIT_OUT := TableOf(13, 1, [Put(5.0, 20), Put(5.0, 1)])

  function SplitAfter(): Levels {
    [[], [], [SPLIT_OUT, SPLIT_G], [], [], [], []]
  }

  // The deletion of 7.0 at 9 is dropped, and the older value of 7.0 left in SPLIT_G is read again.
  lemma DeletedKeyReturns()
    ensures var db, c, db' := Database([], [], SplitVersion()), SplitCompaction(), Database([], [], SplitAfter());
            && DatabaseOk(db) && CompactionOk(db.current, c)
            && c.inputs1 == Meeting(db.current[2], Some(5.0), Some(5.0))
            && OutputsFit(db.current, c, [SPLIT_OUT]) && Replaced(db.current, c, [SPLIT_OUT], db'.current)
            && Entries([SPLIT_OUT]) == Compacted(InputEntries(c), 10, BaseOf(db.current, 1))
            && Uncovers(db, c, 10)
            && Read(Contents(db), 7.0, 10) == None && Read(Contents(db'), 7.0, 10) == Some([1])
  {
    hide DatabaseOk, CompactionOk, OutputsFit, Replaced, Compacted, InputEntries, RestOf, Contents, Uncovers, Resurrects;
    var db, c, db' := Database([], [], SplitVersion()), SplitCompaction(), Database([], [], SplitAfter());
    SplitVersionOk();
    SplitCompactionOk();
    ContentsSplitPicked(db, c);
    DatabaseUnique(db);
    DeletionUncovers(db, c);
    ResurrectsIffUncovers(db, c, 10);
    SplitInstalls();
    ReadNewest(Contents(db), 7.0, 10, Del(7.0, 9));
    SplitReads(db');
  }

  lemma SplitInputs(e: Entry)
    ensures e in InputEntries(SplitCompaction()) <==> e == Put(5.0, 20) || e == Put(5.0, 1) || e == Del(7.0, 9)
  {
    var c := SplitCompaction();
    assert c.inputs0[0].contents == [Put(5.0, 20)] && c.inputs1[0].contents == [Put(5.0, 1), Del(7.0, 9)];
    assert Put(5.0, 20) in c.inputs0[0].contents && Put(5.0, 1) in c.inputs1[0].contents && Del(7.0, 9) in c.inputs1[0].contents;
  }

  lemma SplitInstalls()
    ensures var v, c := SplitVersion(), SplitCompaction();
            && OutputsFit(v, c, [SPLIT_OUT]) && Replaced(v, c, [SPLIT_OUT], SplitAfter())
            && Entries([SPLIT_OUT]) == Compacted(InputEntries(c), 10, BaseOf(v, 1))
  {
    var v, c := SplitVersion(), SplitCompaction();
    SplitWrites();
    forall f, e | f in [SPLIT_OUT] && e in f.contents ensures FromInputs(c, e) {
      SplitInputs(e);
      InputEntriesIff(c, e);
    }
    forall l, f ensures FileAt(SplitAfter(), l, f) <==>
                          (FileAt(v, l, f) && !IsInput(c, l, f)) || (l == c.level + 1 && f in [SPLIT_OUT])
    {
      SplitFileAt(l, f);
      assert SplitAfter()[2][0] == SPLIT_OUT && SplitAfter()[2][1] == SPLIT_G;
    }
    forall f, l, g | f in [SPLIT_OUT] && FileAt(v, l, g) && !IsInput(c, l, g) ensures f.number != g.number {
      SplitFileAt(l, g);
    }
  }

  lemma SplitWrites()
    ensures Entries([SPLIT_OUT]) == Compacted(InputEntries(SplitCompaction()), 10, BaseOf(SplitVersion(), 1))
    ensures FileOk(SPLIT_OUT)
  {
    hide InputEntries;
    var inputs, base := InputEntries(SplitCompaction()), BaseOf(SplitVersion(), 1);
    forall e ensures e in inputs <==> e == Put(5.0, 20) || e == Put(5.0, 1) || e == Del(7.0, 9) {
      SplitInputs(e);
    }
    assert SPLIT_OUT.contents[0] == Put(5.0, 20) && SPLIT_OUT.contents[1] == Put(5.0, 1);
    assert IsNewest(inputs, 5.0, 10, Put(5.0, 1));
    assert base(7.0);
    var outputs := [SPLIT_OUT];
    assert outputs[0].contents == [Put(5.0, 20), Put(5.0, 1)];
    assert Put(5.0, 20) in outputs[0].contents && Put(5.0, 1) in outputs[0].contents;
    assert forall e :: e in Entries(outputs) <==> e == Put(5.0, 20) || e == Put(5.0, 1);
  }

  lemma SplitReads(db': Database)
    requires db' == Database([], [], SplitAfter())
    ensures Read(Contents(db'), 7.0, 10) == Some([1])
  {
    var v := SplitAfter();
    forall e ensures e in Contents(db') <==> e in SPLIT_OUT.contents || e in SPLIT_G.contents {
      InVersionIff(v, e);
      assert FileAt(v, 2, v[2][0]) && FileAt(v, 2, v[2][1]);
    }
    assert SPLIT_G.contents[0] == Put(7.0, 3);
    assert forall e :: e in Contents(db') && e.key.user == 7.0 ==> e == Put(7.0, 3);
    assert IsNewest(Contents(db'), 7.0, 10, Put(7.0, 3));
    assert forall e :: IsNewest(Contents(db'), 7.0, 10, e) ==> e == Put(7.0, 3);
  }

  lemma DeletionUncovers(db: Database, c: Compaction)
    requires db == Database([], [], SplitVersion()) && c == SplitCompaction()
    requires Contents(db) == InputEntries(c) + RestOf(db, c)
    ensures Resurrects(InputEntries(c), RestOf(db, c), 10, BaseOf(db.current, 1), Del(7.0, 9))
    ensures IsNewest(Contents(db), 7.0, 10, Del(7.0, 9))
  {
    hide Contents, InputEntries, RestOf;
    var t, r := Del(7.0, 9), Put(7.0, 3);
    DeletionAndRest(db, c);
    forall e | e in Contents(db) && e.key.user == 7.0 ensures (e == t && e !in RestOf(db, c)) || e == r {
      EntriesOfSeven(db, c, e);
    }
    assert IsNewest(Contents(db), 7.0, 10, t);
    assert IsNewest(RestOf(db, c), 7.0, 9, r);
  }

  lemma DeletionAndRest(db: Database, c: Compaction)
    requires db == Database([], [], SplitVersion()) && c == SplitCompaction()
    ensures Del(7.0, 9) in InputEntries(c) && Put(7.0, 3) in RestOf(db, c)
  {
    var v: Levels := db.current;
    var t, r := Del(7.0, 9), Put(7.0, 3);
    assert SPLIT_F.contents[1] == t && SPLIT_G.contents[0] == r;
    SplitFileAt(2, SPLIT_G);
    assert IsInput(c, 2, SPLIT_F) && FileAt(v, 2, SPLIT_G) && !IsInput(c, 2, SPLIT_G);
    InputEntriesIff(c, t);
    InVersionIff(v, r);
  }

  lemma EntriesOfSeven(db: Database, c: Compaction, e: Entry)
    requires db == Database([], [], SplitVersion()) && c == SplitCompaction()
    requires e in Contents(db) && e.key.user == 7.0
    ensures (e == Del(7.0, 9) && e !in RestOf(db, c)) || e == Put(7.0, 3)
  {
    var v: Levels := db.current;
    InVersionIff(v, e);
    var l, f :| 0 <= l < |v| && f in v[l] && e in f.contents;
    SplitFileAt(l, f);
    forall m, g | FileAt(v, m, g) && !IsInput(c, m, g) ensures Del(7.0, 9) !in g.contents {
      SplitFileAt(m, g);
    }
  }

  // Closing the output-level inputs under boundary files, as is done for the inputs of `level`, is enough.
  lemma ClosedNextLevelSuffices(db: Database, c: Compaction, oldest: SequenceNumber)
    requires c.level + 1 < |db.current| && BoundaryClosed(db.current[c.level + 1], c.inputs1)
    ensures !Uncovers(db, c, oldest)
  {
    hide InputEntries, Contents, CoveredDeeper;
  }

  // --- 2. Installing outputs on a version that changed meanwhile ---

  // The output level stays disjoint exactly when no file now on it reaches into an output's range.
  lemma InstallDisjointIff(v: Levels, c: Compaction, outputs: seq<File>, after: Levels)
    requires VersionOk(v) && FilesOk(outputs) && Disjoint(outputs) && Replaced(v, c, outputs, after)
    requires forall f :: f in outputs ==> !FileAt(v, c.level + 1, f)
    ensures Disjoint(after[c.level + 1]) <==> NoneStraddles(v, c, outputs)
  {
    var l := c.level + 1;
    var files := after[l];
    assert forall f :: f in files <==> FileAt(after, l, f);
    if Disjoint(files) {
      forall f, g | f in outputs && FileAt(v, l, g) && !IsInput(c, l, g) ensures FileBefore(f, g) || FileBefore(g, f) {
        assert FileAt(after, l, f) && FileAt(after, l, g);
        DisjointFiles(files, f, g);
      }
    } else if NoneStraddles(v, c, outputs) {
      forall f, g | f in files && g in files && f != g ensures FileBefore(f, g) || FileBefore(g, f) {
        if f in outputs && g in outputs {
          DisjointFiles(outputs, f, g);
        } else if f !in outputs && g !in outputs {
          DisjointFiles(v[l], f, g);
        }
      }
      assert forall i :: 0 <= i < |files| ==> files[i] in files;
      AscendingIsDisjoint(files);
      assert false;
    }
  }

  const GAP_A := TableOf(20, 1, [Put(4.0, 1), Put(5.0, 2)])
  const GAP_B := TableOf(21, 1, [Put(7.0, 3), Put(8.0, 4)])
  const GAP_OUT := TableOf(22, 1, [Put(4.0, 1), Put(5.0, 2), Put(7.0, 3), Put(8.0, 4)])
  const GAP_FLUSH := TableOf(23, 1, [Put(6.0, 9)])

  // A manual compaction of two level-1 files with a gap between them, and the version it was picked from.
  function GapVersion(): Levels {
    [[], [GAP_A, GAP_B], [], [], [], [], []]
  }

  function GapCompaction(): Compaction {
    Compaction(1, [GAP_A, GAP_B], [], [], GAP_B.largest)
  }

  // The memtable flush in the middle of that compaction may choose level 2, where the output will be installed.  The
  // binary search of level 2 then ends at the output and never sees the flushed value.
  lemma MidCompactionFlushLosesRead(flushed: Levels, after: Levels, s: SequenceNumber)
    requires Applied(GapVersion(), Edit({}, [(2, GAP_FLUSH)], []), flushed)
    requires Replaced(flushed, GapCompaction(), [GAP_OUT], after) && s >= 9
    ensures CompactionOk(GapVersion(), GapCompaction())
    ensures forall m, f :: 0 <= m <= 2 && FileAt(GapVersion(), m, f)
                           ==> !Meets(f, Some(GAP_FLUSH.smallest.user), Some(GAP_FLUSH.largest.user))
    ensures after[2] == [GAP_OUT, GAP_FLUSH] && !Disjoint(after[2])
    ensures Read(VersionEntries(after), 6.0, s) == Some([1])
    ensures after[0] == [] && forall l :: 1 <= l < NUM_LEVELS ==> LookupLevel(after[l], 6.0, s) == Missing
  {
    GapCompactionOk();
    AfterGap(flushed, after);
    GapEntry(after, s);
    GapMisses(s);
    forall l | 1 <= l < NUM_LEVELS && l != 2 ensures after[l] == [] {
      EmptyLevel(after, l);
    }
    EmptyLevel(after, 0);
  }

  lemma EmptyLevel(v: Levels, l: nat)
    requires l < |v| && forall f :: !FileAt(v, l, f)
    ensures v[l] == []
  {
    if v[l] != [] {
      assert FileAt(v, l, v[l][0]);
      assert false;
    }
  }

  lemma GapCompactionOk()
    ensures CompactionOk(GapVersion(), GapCompaction())
    ensures forall m, f :: 0 <= m <= 2 && FileAt(GapVersion(), m, f)
                           ==> !Meets(f, Some(GAP_FLUSH.smallest.user), Some(GAP_FLUSH.largest.user))
  {
    var v, c := GapVersion(), GapCompaction();
    assert Consecutive(v[1], c.inputs0);
    assert forall m, f :: 0 <= m <= 2 && FileAt(v, m, f) ==> f == GAP_A || f == GAP_B;
  }

  lemma AfterGap(flushed: Levels, after: Levels)
    requires Applied(GapVersion(), Edit({}, [(2, GAP_FLUSH)], []), flushed)
    requires Replaced(flushed, GapCompaction(), [GAP_OUT], after)
    ensures after[2] == [GAP_OUT, GAP_FLUSH] && !Disjoint(after[2])
    ensures forall l, f :: FileAt(after, l, f) <==> l == 2 && (f == GAP_OUT || f == GAP_FLUSH)
  {
    hide Applied;
    var v, c := GapVersion(), GapCompaction();
    AddedByEdit(v, 2, GAP_FLUSH, flushed);
    forall l, f ensures FileAt(after, l, f) <==> l == 2 && (f == GAP_OUT || f == GAP_FLUSH) {
      GapFileAt(l, f);
    }
    assert forall f :: f in after[2] <==> FileAt(after, 2, f);
    assert KeyOrder(GAP_OUT, GAP_FLUSH);
    AscendingUnique(after[2], [GAP_OUT, GAP_FLUSH]);
    assert !Precedes(after[2][0].largest, after[2][1].smallest);
  }

  lemma GapFileAt(l: int, f: File)
    ensures FileAt(GapVersion(), l, f) <==> l == 1 && (f == GAP_A || f == GAP_B)
    ensures IsInput(GapCompaction(), l, f) <==> l == 1 && (f == GAP_A || f == GAP_B)
  {
    var v := GapVersion();
    assert v[1][0] == GAP_A && v[1][1] == GAP_B;
    assert v[0] == v[2] == v[3] == v[4] == v[5] == v[6] == [];
  }

  lemma GapEntry(after: Levels, s: SequenceNumber)
    requires s >= 9 && forall l, f :: FileAt(after, l, f) <==> l == 2 && (f == GAP_OUT || f == GAP_FLUSH)
    ensures Read(VersionEntries(after), 6.0, s) == Some([1])
  {
    var e := Put(6.0, 9);
    assert GAP_FLUSH.contents[0] == e && FileAt(after, 2, GAP_FLUSH);
    InVersionIff(after, e);
    forall e' | e' in VersionEntries(after) && e'.key.user == 6.0 ensures e' == e {
      InVersionIff(after, e');
      var l, f :| 0 <= l < |after| && f in after[l] && e' in f.contents;
      assert FileAt(after, l, f);
    }
    assert IsNewest(VersionEntries(after), 6.0, s, e);
    assert forall f :: IsNewest(VersionEntries(after), 6.0, s, f) ==> f == e;
  }

  lemma GapMisses(s: SequenceNumber)
    requires s >= 9
    ensures LookupLevel([GAP_OUT, GAP_FLUSH], 6.0, s) == Missing
  {
    var files, key := [GAP_OUT, GAP_FLUSH], SeekKey(6.0, s);
    assert !Less(GAP_FLUSH.largest, key) && !Less(GAP_OUT.largest, key);
    assert Halve(files, key, 0, 2) == Halve(files, key, 0, 1) == Halve(files, key, 0, 0) == 0;
    var run := GAP_OUT.contents;
    var i := SeekPos(run, key);
    assert run[0].key.user == 4.0 && run[1].key.user == 5.0 && run[2].key.user == 7.0 && run[3].key.user == 8.0;
  }
}
