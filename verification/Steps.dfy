/** Background steps on the file set: memtable flush, trivial move and compaction install
    (db/version_set.cc 470-495, 1492-1508; db/db_impl.cc 500-575, 727-734, 869-885). */
module Steps {
  import opened InternalKeys
  import opened Files
  import opened Picking
  import opened VersionBuilder
  import opened Versions
  import opened CompactionMeaning
  import opened CompactionWork
  import opened Cursors

  // --- Invariants of an edited version ---

  // Files that ascend by smallest key and never meet are disjoint in order.
  lemma AscendingIsDisjoint(files: seq<File>)
    requires FilesOk(files) && Ascending(files)
    requires forall f, g :: f in files && g in files && f != g ==> FileBefore(f, g) || FileBefore(g, f)
    ensures Disjoint(files)
  {
    forall i, j | 0 <= i < j < |files| ensures Precedes(files[i].largest, files[j].smallest) {
      assert KeyOrder(files[i], files[j]) && files[i] in files && files[j] in files && files[i] != files[j];
      FileOrder(files[i], files[i].contents[0]);
      FileOrder(files[j], files[j].contents[0]);
    }
  }

  ghost predicate FreshNumber(v: Levels, n: nat) {
    forall l, f :: FileAt(v, l, f) ==> f.number < n
  }

  // --- Memtable flush ---

  ghost predicate SomeMeets(v: Levels, level: nat, lo: UserKey, hi: UserKey) {
    exists f :: FileAt(v, level, f) && Meets(f, Some(lo), Some(hi))
  }

  // A table may go below `level`: nothing meets it there, and it meets at most ten files' worth one level deeper.
  ghost predicate GoesBelow(v: Levels, level: nat, lo: UserKey, hi: UserKey, maxFileSize: nat) {
    && !SomeMeets(v, level + 1, lo, hi)
    && (level + 2 < |v| ==> TotalFileSize(Meeting(v[level + 2], Some(lo), Some(hi))) <= 10 * maxFileSize)
  }

  ghost predicate OutputLevel(v: Levels, lo: UserKey, hi: UserKey, maxFileSize: nat, level: nat) {
    && level <= 2 && (SomeMeets(v, 0, lo, hi) ==> level == 0)
    && (forall m :: 0 <= m < level ==> GoesBelow(v, m, lo, hi, maxFileSize))
    && (!SomeMeets(v, 0, lo, hi) && level < 2 ==> !GoesBelow(v, level, lo, hi, maxFileSize))
  }

  // PickLevelForMemTableOutput: the chosen level and every level above it are free of the key range, and the level is the
  // deepest of the first three a table without level-0 overlap can go down to.
  method PickLevelForMemTableOutput(v: Levels, lo: UserKey, hi: UserKey, maxFileSize: nat) returns (level: nat)
    requires LevelsOk(v)
    ensures OutputLevel(v, lo, hi, maxFileSize, level)
    ensures level > 0 ==> forall m, f :: 0 <= m <= level && FileAt(v, m, f) ==> !Meets(f, Some(lo), Some(hi))
  {
    hide FileOk, Disjoint, TotalFileSize, Meeting, FilesOk;
    level := 0;
    var overlap := SomeFileOverlapsRange(false, v[0], Some(lo), Some(hi));
    if overlap {
      assert SomeMeets(v, 0, lo, hi);
      return;
    }
    while level < 2
      invariant level <= 2 && !SomeMeets(v, 0, lo, hi)
      invariant forall m :: 0 <= m < level ==> GoesBelow(v, m, lo, hi, maxFileSize)
      invariant forall m, f :: 0 <= m <= level && FileAt(v, m, f) ==> !Meets(f, Some(lo), Some(hi))
    {
      overlap := SomeFileOverlapsRange(true, v[level + 1], Some(lo), Some(hi));
      if overlap {
        break;
      }
      if level + 2 < NUM_LEVELS {
        var start, limit := IKey(lo, MAX_SEQUENCE, Value), IKey(hi, 0, Deletion);
        var overlaps, _, _ := GetOverlappingInputs(level + 2, v[level + 2], Some(start), Some(limit));
        if TotalFileSize(overlaps) > 10 * maxFileSize {
          break;
        }
      }
      level := level + 1;
    }
  }

  // A table written from a sorted run (BuildTable).
  function TableOf(number: nat, size: nat, run: seq<Entry>): File
    requires run != []
  {
    File(number, size, run[0].key, run[|run| - 1].key, run)
  }

  // WriteLevel0Table and CompactMemTable: the immutable memtable becomes a file, and nothing is gained or lost.
  method CompactMemTable(db: Database, number: nat, size: nat, maxFileSize: nat) returns (db': Database, ghost level: nat)
    requires DatabaseOk(db) && FreshNumber(db.current, number)
    ensures DatabaseOk(db') && Contents(db') == Contents(db)
    ensures db'.mem == db.mem && db'.imm == []
    ensures FreshNumber(db'.current, number + 1)
    ensures db.imm != [] ==>
              var meta := TableOf(number, size, db.imm);
              && FileAt(db'.current, level, meta)
              && OutputLevel(db.current, meta.smallest.user, meta.largest.user, maxFileSize, level)
  {
    hide OutputLevel;
    if db.imm == [] {
      return db, 0;
    }
    var meta := TableOf(number, size, db.imm);
    var outputLevel := PickLevelForMemTableOutput(db.current, meta.smallest.user, meta.largest.user, maxFileSize);
    level := outputLevel;
    var edit := Edit({}, [(outputLevel, meta)], []);
    LevelBound(db.current, meta.smallest.user, meta.largest.user, maxFileSize, level);
    FlushFits(db.current, level, meta);
    AddedFirst(edit.added, level, meta);
    var after, _ := LogAndApply(db.current, NoPointers(), edit);
    db' := db.(imm := [], current := after);
    FlushKeepsOk(db, level, meta, db');
  }

  lemma LevelBound(v: Levels, lo: UserKey, hi: UserKey, maxFileSize: nat, level: nat)
    requires OutputLevel(v, lo, hi, maxFileSize, level)
    ensures level <= 2
  {
  }

  lemma AddedFirst(added: seq<(nat, File)>, level: nat, meta: File)
    requires added == [(level, meta)]
    ensures Adds(added, level, meta)
  {
    assert added[0] == (level, meta);
  }

  lemma FlushFits(v: Levels, level: nat, meta: File)
    requires VersionOk(v) && level < NUM_LEVELS && FreshNumber(v, meta.number)
    ensures EditFits(v, Edit({}, [(level, meta)], []))
  {
    forall l, f | 0 <= l < NUM_LEVELS && f in v[l] ensures f.number != meta.number {
      assert FileAt(v, l, f);
    }
  }

  ghost predicate OneFileAdded(v: Levels, level: nat, meta: File, after: Levels) {
    && |v| == |after| == NUM_LEVELS && level < NUM_LEVELS
    && (forall l, f :: FileAt(after, l, f) <==> FileAt(v, l, f) || (l == level && f == meta))
    && (forall l :: 0 <= l < NUM_LEVELS ==> Ascending(after[l]))
  }

  lemma AddedByEdit(v: Levels, level: nat, meta: File, after: Levels)
    requires level < NUM_LEVELS && Applied(v, Edit({}, [(level, meta)], []), after)
    ensures OneFileAdded(v, level, meta, after)
  {
    var e := Edit({}, [(level, meta)], []);
    forall l, f ensures FileAt(after, l, f) <==> FileAt(v, l, f) || (l == level && f == meta) {
      assert e.added[0] == (level, meta);
      if 0 <= l < NUM_LEVELS {
        assert Adds(e.added, l, f) <==> l == level && f == meta;
      }
    }
  }

  lemma FlushKeepsOk(db: Database, level: nat, meta: File, db': Database)
    requires DatabaseOk(db) && FileOk(meta) && meta.contents == db.imm && level < NUM_LEVELS
    requires FreshNumber(db.current, meta.number)
    requires level > 0 ==> forall m, f :: 0 <= m <= level && FileAt(db.current, m, f)
                                          ==> !Meets(f, Some(meta.smallest.user), Some(meta.largest.user))
    requires Applied(db.current, Edit({}, [(level, meta)], []), db'.current)
    requires db'.mem == db.mem && db'.imm == []
    ensures DatabaseOk(db') && Contents(db') == Contents(db) && FreshNumber(db'.current, meta.number + 1)
  {
    AddedByEdit(db.current, level, meta, db'.current);
    FlushedEntries(db, level, meta, db'.current);
    FlushKeepsVersionOk(db, level, meta, db'.current);
  }

  lemma FlushedEntries(db: Database, level: nat, meta: File, after: Levels)
    requires meta.contents == db.imm && OneFileAdded(db.current, level, meta, after)
    ensures VersionEntries(after) == VersionEntries(db.current) + ToSet(db.imm)
  {
    forall e ensures InVersion(after, e) <==> InVersion(db.current, e) || e in db.imm {
      if InVersion(after, e) {
        var l, f :| 0 <= l < |after| && f in after[l] && e in f.contents;
        assert FileAt(after, l, f);
      }
      if InVersion(db.current, e) {
        var l, f :| 0 <= l < |db.current| && f in db.current[l] && e in f.contents;
        assert FileAt(db.current, l, f);
        assert FileAt(after, l, f);
      }
      if e in db.imm {
        assert FileAt(after, level, meta);
      }
    }
    forall e ensures e in VersionEntries(after) <==> e in VersionEntries(db.current) || e in ToSet(db.imm) {
      InVersionIff(after, e);
      InVersionIff(db.current, e);
    }
  }

  lemma FlushKeepsVersionOk(db: Database, level: nat, meta: File, after: Levels)
    requires DatabaseOk(db) && FileOk(meta) && meta.contents == db.imm
    requires FreshNumber(db.current, meta.number)
    requires OneFileAdded(db.current, level, meta, after)
    requires level > 0 ==> forall m, f :: 0 <= m <= level && FileAt(db.current, m, f)
                                          ==> !Meets(f, Some(meta.smallest.user), Some(meta.largest.user))
    ensures VersionOk(after)
  {
    hide FileNewer;
    var v := db.current;
    forall l, f | FileAt(after, l, f) ensures FileOk(f) && (f != meta ==> FileAt(v, l, f) && FileNewer(meta, f)) {
      if f != meta {
        MemtableIsNewer(db, meta, l, f);
      }
    }
    assert forall l, i :: 0 <= l < NUM_LEVELS && 0 <= i < |after[l]| ==> FileAt(after, l, after[l][i]);
    forall l | 1 <= l < NUM_LEVELS ensures Disjoint(after[l]) {
      forall f, g | f in after[l] && g in after[l] && f != g ensures FileBefore(f, g) || FileBefore(g, f) {
        FlushedDisjoint(v, level, meta, after, l, f, g);
      }
      AscendingIsDisjoint(after[l]);
    }
    forall l, m, f, g | 0 <= l < m < |after| && f in after[l] && g in after[m] ensures FileNewer(f, g) {
      FlushedRecency(db, level, meta, after, l, m, f, g);
    }
    forall f, g | f in after[0] && g in after[0] && f.number > g.number ensures FileNewer(f, g) {
      assert FileAt(after, 0, f) && FileAt(after, 0, g);
      assert g == meta ==> FileAt(v, 0, f);
    }
  }

  lemma MemtableIsNewer(db: Database, meta: File, l: int, f: File)
    requires DatabaseOk(db) && meta.contents == db.imm && FileAt(db.current, l, f)
    ensures FileNewer(meta, f)
  {
    forall e, e' | e in meta.contents && e' in f.contents && e.key.user == e'.key.user
      ensures e.key.sequence > e'.key.sequence
    {
      InVersionIff(db.current, e');
      assert e in ToSet(db.imm);
    }
  }

  lemma FlushedDisjoint(v: Levels, level: nat, meta: File, after: Levels, l: nat, f: File, g: File)
    requires VersionOk(v) && FileOk(meta) && OneFileAdded(v, level, meta, after) && 1 <= l < NUM_LEVELS
    requires forall m, f :: 0 < level && 0 <= m <= level && FileAt(v, m, f)
                            ==> !Meets(f, Some(meta.smallest.user), Some(meta.largest.user))
    requires FileAt(after, l, f) && FileAt(after, l, g) && f != g
    ensures FileBefore(f, g) || FileBefore(g, f)
  {
    FileOrder(meta, meta.contents[0]);
    if f != meta && g != meta {
      assert FileAt(v, l, f) && FileAt(v, l, g);
      DisjointFiles(v[l], f, g);
    }
  }

  lemma FlushedRecency(db: Database, level: nat, meta: File, after: Levels, l: nat, m: nat, f: File, g: File)
    requires DatabaseOk(db) && FileOk(meta) && meta.contents == db.imm && OneFileAdded(db.current, level, meta, after)
    requires forall m, f :: 0 < level && 0 <= m <= level && FileAt(db.current, m, f)
                            ==> !Meets(f, Some(meta.smallest.user), Some(meta.largest.user))
    requires l < m && FileAt(after, l, f) && FileAt(after, m, g)
    ensures FileNewer(f, g)
  {
    if f != meta && g != meta {
      assert FileAt(db.current, l, f) && FileAt(db.current, m, g);
    } else if g != meta || FileAt(db.current, m, g) {
      if FileAt(db.current, l, f) {
        assert FileAt(db.current, m, g);
      } else {
        MemtableIsNewer(db, meta, m, g);
      }
    } else {
      assert FileAt(db.current, l, f);
      assert UserDisjoint(f, meta);
      DisjointIsNewer(meta, f);
    }
  }

  // --- Replacing the inputs of a compaction by its outputs ---

  ghost predicate IsInput(c: Compaction, l: int, f: File) {
    (l == c.level && f in c.inputs0) || (l == c.level + 1 && f in c.inputs1)
  }

  ghost predicate FromInputs(c: Compaction, e: Entry) {
    exists l, f :: IsInput(c, l, f) && e in f.contents
  }

  ghost predicate Replaced(v: Levels, c: Compaction, outputs: seq<File>, after: Levels) {
    && |v| == |after| == NUM_LEVELS && c.level + 1 < NUM_LEVELS
    && (forall l, f :: FileAt(after, l, f) <==>
          (FileAt(v, l, f) && !IsInput(c, l, f)) || (l == c.level + 1 && f in outputs))
    && (forall l :: 0 <= l < NUM_LEVELS ==> Ascending(after[l]))
  }

  // Outputs are well formed and disjoint, hold input entries only, and have numbers no remaining file has.
  ghost predicate OutputsFit(v: Levels, c: Compaction, outputs: seq<File>) {
    && FilesOk(outputs) && Disjoint(outputs) && DistinctNumbers(outputs)
    && (forall f, e :: f in outputs && e in f.contents ==> FromInputs(c, e))
    && (forall f, l, g :: f in outputs && FileAt(v, l, g) && !IsInput(c, l, g) ==> f.number != g.number)
  }

  // What an install needs of the version it is applied to: the inputs are still there, and no file beside them on
  // their level is older.  Flushes during the compaction keep this, so it need not be the version they were picked from.
  ghost predicate InputsAt(v: Levels, c: Compaction) {
    && |v| == NUM_LEVELS && c.level + 1 < NUM_LEVELS
    && Among(c.inputs0, v[c.level]) && Among(c.inputs1, v[c.level + 1])
    && LeavesNewer(v[c.level], c.inputs0)
  }

  lemma PickedInputs(v: Levels, c: Compaction)
    requires CompactionOk(v, c)
    ensures InputsAt(v, c)
  {
  }

  // No output reaches over a file that stays on the output level.
  ghost predicate NoneStraddles(v: Levels, c: Compaction, outputs: seq<File>) {
    forall f, g :: f in outputs && FileAt(v, c.level + 1, g) && !IsInput(c, c.level + 1, g)
                   ==> FileBefore(f, g) || FileBefore(g, f)
  }

  // The install keeps every level >= 1 sorted and disjoint and newer entries above older ones, exactly when no output
  // straddles a file now on the output level.
  lemma InstallSoundIff(v: Levels, c: Compaction, outputs: seq<File>, after: Levels)
    requires VersionOk(v) && InputsAt(v, c) && OutputsFit(v, c, outputs) && Replaced(v, c, outputs, after)
    ensures VersionOk(after) <==> NoneStraddles(v, c, outputs)
  {
    hide FileNewer, FileOk;
    if VersionOk(after) {
      forall f, g | f in outputs && FileAt(v, c.level + 1, g) && !IsInput(c, c.level + 1, g)
        ensures FileBefore(f, g) || FileBefore(g, f)
      {
        assert FileAt(after, c.level + 1, f) && FileAt(after, c.level + 1, g) && f.number != g.number;
        DisjointFiles(after[c.level + 1], f, g);
      }
    }
    if NoneStraddles(v, c, outputs) {
      ReplaceKeepsVersionOk(v, c, outputs, after);
    }
  }

  lemma ReplaceKeepsVersionOk(v: Levels, c: Compaction, outputs: seq<File>, after: Levels)
    requires VersionOk(v) && InputsAt(v, c) && OutputsFit(v, c, outputs) && Replaced(v, c, outputs, after)
    requires NoneStraddles(v, c, outputs)
    ensures VersionOk(after)
  {
    hide FileNewer;
    assert forall l, i :: 0 <= l < NUM_LEVELS && 0 <= i < |after[l]| ==> FileAt(after, l, after[l][i]);
    forall l | 1 <= l < NUM_LEVELS ensures Disjoint(after[l]) {
      forall f, g | f in after[l] && g in after[l] && f != g ensures FileBefore(f, g) || FileBefore(g, f) {
        ReplacedDisjoint(v, c, outputs, after, l, f, g);
      }
      AscendingIsDisjoint(after[l]);
    }
    forall l, m, f, g | 0 <= l < m < |after| && f in after[l] && g in after[m] ensures FileNewer(f, g) {
      ReplacedRecency(v, c, outputs, after, l, m, f, g);
    }
    assert forall f :: f in after[0] ==> FileAt(after, 0, f) && FileAt(v, 0, f);
  }

  lemma ReplacedDisjoint(v: Levels, c: Compaction, outputs: seq<File>, after: Levels, l: nat, f: File, g: File)
    requires VersionOk(v) && OutputsFit(v, c, outputs) && Replaced(v, c, outputs, after) && NoneStraddles(v, c, outputs)
    requires l >= 1 && FileAt(after, l, f) && FileAt(after, l, g) && f != g
    ensures FileBefore(f, g) || FileBefore(g, f)
  {
    if l == c.level + 1 && f in outputs && g in outputs {
      DisjointFiles(outputs, f, g);
    } else if l != c.level + 1 || (f !in outputs && g !in outputs) {
      DisjointFiles(v[l], f, g);
    }
  }

  // On the version the inputs were picked from, no output straddles a file.
  lemma PickedNoneStraddles(v: Levels, c: Compaction, outputs: seq<File>)
    requires VersionOk(v) && CompactionOk(v, c) && FilesOk(outputs)
    requires forall f, e :: f in outputs && e in f.contents ==> FromInputs(c, e)
    ensures NoneStraddles(v, c, outputs)
  {
    forall f, g | f in outputs && FileAt(v, c.level + 1, g) && !IsInput(c, c.level + 1, g)
      ensures FileBefore(f, g) || FileBefore(g, f)
    {
      OutputBeside(v, c, f, g);
    }
  }

  lemma OutputBeside(v: Levels, c: Compaction, out: File, g: File)
    requires VersionOk(v) && CompactionOk(v, c) && FileOk(out) && forall e :: e in out.contents ==> FromInputs(c, e)
    requires FileAt(v, c.level + 1, g) && !IsInput(c, c.level + 1, g)
    ensures FileBefore(out, g) || FileBefore(g, out)
  {
    var first, last := out.contents[0], out.contents[|out.contents| - 1];
    assert Beside(g, c.inputs0, c.inputs1);
    FileOrder(g, g.contents[0]);
    if (forall f :: f in c.inputs0 ==> g.largest.user < f.smallest.user) && (forall f :: f in c.inputs1 ==> FileBefore(g, f)) {
      var l, f := InputOf(v, c, first);
      FileOrder(f, first);
    } else {
      var l, f := InputOf(v, c, last);
      FileOrder(f, last);
    }
  }

  lemma InputOf(v: Levels, c: Compaction, e: Entry) returns (l: int, f: File)
    requires VersionOk(v) && InputsAt(v, c) && FromInputs(c, e)
    ensures IsInput(c, l, f) && FileAt(v, l, f) && FileOk(f) && e in f.contents
  {
    l, f :| IsInput(c, l, f) && e in f.contents;
    assert Among(c.inputs0, v[c.level]) && Among(c.inputs1, v[c.level + 1]);
  }

  lemma ReplacedRecency(v: Levels, c: Compaction, outputs: seq<File>, after: Levels, l: nat, m: nat, f: File, g: File)
    requires VersionOk(v) && InputsAt(v, c) && OutputsFit(v, c, outputs) && Replaced(v, c, outputs, after)
    requires l < m && FileAt(after, l, f) && FileAt(after, m, g)
    ensures FileNewer(f, g)
  {
    if FileAt(v, l, f) && FileAt(v, m, g) {
    } else {
      forall e, e' | e in f.contents && e' in g.contents && e.key.user == e'.key.user
        ensures e.key.sequence > e'.key.sequence
      {
        if !FileAt(v, l, f) {
          var k, source := InputOf(v, c, e);
          assert FileNewer(source, g);
        } else {
          var k, source := InputOf(v, c, e');
          StaysNewer(v, c, l, f, k, source);
        }
      }
    }
  }

  // A file that stays at or above the compacted level is newer than any input.
  lemma StaysNewer(v: Levels, c: Compaction, l: nat, f: File, k: int, source: File)
    requires VersionOk(v) && InputsAt(v, c)
    requires FileAt(v, l, f) && !IsInput(c, l, f) && l <= c.level && IsInput(c, k, source) && FileAt(v, k, source)
    ensures FileNewer(f, source)
  {
    if l == c.level == k {
      assert LeavesNewer(v[c.level], c.inputs0);
    } else {
      assert Recency(v);
    }
  }

  // AddInputDeletions and the AddFile loop of InstallCompactionResults; a trivial move is the same edit with the
  // single input file as its only output.
  function ReplaceEdit(c: Compaction, outputs: seq<File>): Edit {
    Edit((set f | f in c.inputs0 :: (c.level, f.number)) + (set f | f in c.inputs1 :: (c.level + 1, f.number)),
         seq(|outputs|, i requires 0 <= i < |outputs| => (c.level + 1, outputs[i])),
         [(c.level, c.pointer)])
  }

  // Outputs hold numbers that are new on the output level, or the outputs are the moved inputs themselves.
  ghost predicate NumbersFit(v: Levels, c: Compaction, outputs: seq<File>) {
    && (forall i, j :: 0 <= i < j < |outputs| ==> outputs[i].number != outputs[j].number)
    && (forall f, l, g :: f in outputs && FileAt(v, l, g) && f.number == g.number ==> l == c.level && g in c.inputs0)
  }

  method InstallResults(v: Levels, c: Compaction, outputs: seq<File>) returns (after: Levels)
    requires VersionOk(v) && InputsAt(v, c) && NumbersFit(v, c, outputs)
    ensures Replaced(v, c, outputs, after)
  {
    var edit := ReplaceEdit(c, outputs);
    assert EditFits(v, edit) by {
      forall l, f | 0 <= l < NUM_LEVELS && f in v[l] ensures FileAt(v, l, f) {}
    }
    var applied, _ := LogAndApply(v, NoPointers(), edit);
    after := applied;
    EditReplaces(v, c, outputs, after);
  }

  lemma EditReplaces(v: Levels, c: Compaction, outputs: seq<File>, after: Levels)
    requires VersionOk(v) && InputsAt(v, c) && NumbersFit(v, c, outputs)
    requires Applied(v, ReplaceEdit(c, outputs), after)
    ensures Replaced(v, c, outputs, after)
  {
    var edit := ReplaceEdit(c, outputs);
    assert Among(c.inputs0, v[c.level]) && Among(c.inputs1, v[c.level + 1]);
    forall l, f ensures FileAt(after, l, f) <==>
                          (FileAt(v, l, f) && !IsInput(c, l, f)) || (l == c.level + 1 && f in outputs)
    {
      if 0 <= l < NUM_LEVELS {
        assert Adds(edit.added, l, f) <==> l == c.level + 1 && f in outputs by {
          assert forall i :: 0 <= i < |outputs| ==> edit.added[i] == (c.level + 1, outputs[i]);
        }
        if f in v[l] {
          DeletedIsInput(v, c, outputs, l, f);
        }
      }
    }
  }

  lemma DeletedIsInput(v: Levels, c: Compaction, outputs: seq<File>, l: nat, f: File)
    requires VersionOk(v) && InputsAt(v, c) && FileAt(v, l, f)
    ensures (l, f.number) in ReplaceEdit(c, outputs).deleted <==> IsInput(c, l, f)
  {
    assert Among(c.inputs0, v[c.level]) && Among(c.inputs1, v[c.level + 1]);
    if (l, f.number) in ReplaceEdit(c, outputs).deleted {
      var g :| ((l == c.level && g in c.inputs0) || (l == c.level + 1 && g in c.inputs1)) && g.number == f.number;
      assert FileAt(v, l, g);
    }
  }

  // --- Compaction preserves reads ---

  ghost function InputEntries(c: Compaction): set<Entry> {
    Entries(c.inputs0) + Entries(c.inputs1)
  }

  lemma InputEntriesIff(c: Compaction, e: Entry)
    ensures e in InputEntries(c) <==> FromInputs(c, e)
  {
    if e in InputEntries(c) {
      if e in Entries(c.inputs0) {
        var i :| 0 <= i < |c.inputs0| && e in c.inputs0[i].contents;
        assert IsInput(c, c.level, c.inputs0[i]);
      } else {
        var i :| 0 <= i < |c.inputs1| && e in c.inputs1[i].contents;
        assert IsInput(c, c.level + 1, c.inputs1[i]);
      }
    }
    if FromInputs(c, e) {
      var l, f :| IsInput(c, l, f) && e in f.contents;
      if l == c.level && f in c.inputs0 {
        var i :| 0 <= i < |c.inputs0| && c.inputs0[i] == f;
      } else {
        var i :| 0 <= i < |c.inputs1| && c.inputs1[i] == f;
      }
    }
  }

  ghost predicate StaysInVersion(v: Levels, c: Compaction, e: Entry) {
    exists l, f :: FileAt(v, l, f) && !IsInput(c, l, f) && e in f.contents
  }

  // Everything in the database that the compaction does not rewrite.
  ghost function RestOf(db: Database, c: Compaction): set<Entry> {
    ToSet(db.mem) + ToSet(db.imm) + (set e | e in VersionEntries(db.current) && StaysInVersion(db.current, c, e))
  }

  lemma ContentsSplit(db: Database, c: Compaction)
    requires DatabaseOk(db) && InputsAt(db.current, c)
    ensures Contents(db) == InputEntries(c) + RestOf(db, c)
  {
    forall e ensures e in VersionEntries(db.current) <==>
                       e in InputEntries(c) || (e in VersionEntries(db.current) && StaysInVersion(db.current, c, e))
    {
      InVersionIff(db.current, e);
      InputEntriesIff(c, e);
      if e in VersionEntries(db.current) {
        var l, f :| 0 <= l < |db.current| && f in db.current[l] && e in f.contents;
        assert FileAt(db.current, l, f);
      }
      if FromInputs(c, e) {
        var l, f := InputOf(db.current, c, e);
      }
    }
  }

  lemma ReplacedContents(db: Database, c: Compaction, outputs: seq<File>, db': Database)
    requires DatabaseOk(db) && InputsAt(db.current, c) && Replaced(db.current, c, outputs, db'.current)
    requires db'.mem == db.mem && db'.imm == db.imm
    ensures Contents(db') == Entries(outputs) + RestOf(db, c)
  {
    forall e ensures e in VersionEntries(db'.current) <==>
                       e in Entries(outputs) || (e in VersionEntries(db.current) && StaysInVersion(db.current, c, e))
    {
      InVersionIff(db.current, e);
      InVersionIff(db'.current, e);
      if InVersion(db'.current, e) {
        var l, f :| 0 <= l < |db'.current| && f in db'.current[l] && e in f.contents;
        assert FileAt(db'.current, l, f);
        if FileAt(db.current, l, f) && !IsInput(c, l, f) {
          assert StaysInVersion(db.current, c, e);
        } else {
          var i :| 0 <= i < |outputs| && outputs[i] == f;
        }
      }
      if StaysInVersion(db.current, c, e) {
        var l, f :| FileAt(db.current, l, f) && !IsInput(c, l, f) && e in f.contents;
        assert FileAt(db'.current, l, f);
      }
      if e in Entries(outputs) {
        var i :| 0 <= i < |outputs| && e in outputs[i].contents;
        assert FileAt(db'.current, c.level + 1, outputs[i]);
      }
    }
  }

  // --- Exactly when an install changes a read ---

  // The guard a caller can test before a compaction: the output-level inputs end inside a user key, the rest of which
  // was left behind and starts with a value, while the oldest snapshot reads a deletion of that key from the inputs
  // and no deeper level covers the key.
  ghost predicate Uncovers(db: Database, c: Compaction, oldest: SequenceNumber) {
    exists t, g :: UncoversAt(db, c, oldest, t, g)
  }

  ghost predicate UncoversAt(db: Database, c: Compaction, oldest: SequenceNumber, t: Entry, g: File) {
    && c.level + 1 < |db.current|
    && Continues(db.current[c.level + 1], c.inputs1, g)
    && g.smallest.user == t.key.user && g.smallest.kind.Value?
    && t in InputEntries(c) && t.key.kind.Deletion? && IsNewest(Contents(db), t.key.user, oldest, t)
    && !CoveredDeeper(db.current, c.level, t.key.user)
  }

  lemma {:induction false} FirstBoundaryExists(files: seq<File>, n: nat, k: IKey) returns (i: nat)
    requires n <= |files| && exists j :: 0 <= j < n && IsBoundary(files[j], k)
    ensures i < n && IsBoundary(files[i], k)
    ensures forall j :: 0 <= j < n && IsBoundary(files[j], k) ==> !Less(files[j].smallest, files[i].smallest)
    decreases n
  {
    if exists j :: 0 <= j < n - 1 && IsBoundary(files[j], k) {
      i := FirstBoundaryExists(files, n - 1, k);
      if IsBoundary(files[n - 1], k) && Less(files[n - 1].smallest, files[i].smallest) {
        i := n - 1;
      }
    } else {
      i := n - 1;
    }
  }

  lemma FileAtOk(v: Levels, l: int, f: File)
    requires VersionOk(v) && FileAt(v, l, f)
    ensures FileOk(f)
  {
  }

  // Where an older entry of an input's user key can be: deeper, or on the output level.
  lemma OlderIsBelow(db: Database, c: Compaction, t: Entry, r: Entry) returns (l: int, g: File)
    requires DatabaseOk(db) && CompactionOk(db.current, c) && t in InputEntries(c) && r in RestOf(db, c)
    requires t.key.user == r.key.user && r.key.sequence <= t.key.sequence
    ensures FileAt(db.current, l, g) && !IsInput(c, l, g) && r in g.contents
    ensures l == c.level + 1 || CoveredDeeper(db.current, c.level, t.key.user)
  {
    hide VersionOk, FileOk, InputEntries, CompactionOk, InputsAt;
    var v := db.current;
    PickedInputs(v, c);
    InputEntriesIff(c, t);
    var k, source := InputOf(v, c, t);
    InVersionIff(v, t);
    assert r !in db.mem && r !in db.imm;
    l, g :| FileAt(v, l, g) && !IsInput(c, l, g) && r in g.contents;
    if l <= c.level {
      StaysNewer(v, c, l, g, k, source);
      assert false;
    } else if l > c.level + 1 {
      FileAtOk(v, l, g);
      FileOrder(g, r);
      var i :| 0 <= i < |v[l]| && v[l][i] == g;
      assert Covers(v[l][i], t.key.user);
    }
  }

  // A file left on the output level that covers the user key of an input entry lies on one side of the output-level
  // inputs, and the entry is in one of these.
  lemma SharesKey(v: Levels, c: Compaction, t: Entry, g: File) returns (source: File)
    requires VersionOk(v) && CompactionOk(v, c) && FromInputs(c, t)
    requires FileAt(v, c.level + 1, g) && !IsInput(c, c.level + 1, g) && Covers(g, t.key.user)
    ensures source in c.inputs1 && FileOk(source) && t in source.contents
    ensures (forall f :: f in c.inputs1 ==> FileBefore(g, f)) || (forall f :: f in c.inputs1 ==> FileBefore(f, g))
  {
    hide VersionOk, FileOk, LeavesNewer, Pickable, Disjoint, InputsAt;
    PickedInputs(v, c);
    var l, f := InputOf(v, c, t);
    FileOrder(f, t);
    assert Beside(g, c.inputs0, c.inputs1);
    source := f;
  }

  lemma OlderIsBoundary(db: Database, c: Compaction, t: Entry, g: File, r: Entry) returns (k: IKey)
    requires DatabaseOk(db) && CompactionOk(db.current, c) && t in InputEntries(c)
    requires FileAt(db.current, c.level + 1, g) && !IsInput(c, c.level + 1, g) && r in g.contents
    requires t.key.user == r.key.user && r.key.sequence <= t.key.sequence
    ensures IsLargest(c.inputs1, k) && IsBoundary(g, k) && k.user == t.key.user
  {
    hide VersionOk, FileOk, InputEntries, LeavesNewer, Pickable, InputsAt;
    var v := db.current;
    InputEntriesIff(c, t);
    FileAtOk(v, c.level + 1, g);
    FileOrder(g, r);
    var source := SharesKey(v, c, t, g);
    FileOrder(source, t);
    assert FileBefore(source, g);
    OutputLevelOk(v, c);
    var last := LastFile(c.inputs1);
    k := last.largest;
    assert FileBefore(last, g);
  }

  lemma OutputLevelOk(v: Levels, c: Compaction)
    requires VersionOk(v) && CompactionOk(v, c)
    ensures FilesOk(c.inputs1) && Disjoint(c.inputs1)
  {
    SubsetOk(v[c.level + 1], c.inputs1);
  }

  // A boundary file is no input, and starts with an entry that is older than every input of its user key.
  lemma BoundaryIsRest(db: Database, c: Compaction, k: IKey, g: File)
    requires DatabaseOk(db) && CompactionOk(db.current, c)
    requires FileAt(db.current, c.level + 1, g) && IsLargest(c.inputs1, k) && IsBoundary(g, k)
    ensures !IsInput(c, c.level + 1, g) && g.contents[0] in RestOf(db, c) && g.contents[0].key == g.smallest
  {
    FileOrder(g, g.contents[0]);
    assert g in c.inputs1 ==> !Less(k, g.largest);
    InVersionIff(db.current, g.contents[0]);
    assert StaysInVersion(db.current, c, g.contents[0]);
  }

  lemma BoundaryIsOlder(db: Database, c: Compaction, t: Entry, k: IKey, g: File)
    requires DatabaseOk(db) && CompactionOk(db.current, c) && t in InputEntries(c)
    requires FileAt(db.current, c.level + 1, g) && IsLargest(c.inputs1, k) && IsBoundary(g, k) && t.key.user == k.user
    requires !IsInput(c, c.level + 1, g)
    ensures g.smallest.sequence < t.key.sequence
  {
    hide VersionOk, FileOk, InputEntries, LeavesNewer, Pickable, InputsAt;
    var v := db.current;
    InputEntriesIff(c, t);
    FileAtOk(v, c.level + 1, g);
    FileFirst(g);
    var source := SharesKey(v, c, t, g);
    FileOrder(source, t);
    OutputLevelOk(v, c);
    var last :| last in c.inputs1 && last.largest == k;
    FileFirst(last);
    assert FileBefore(source, g);
  }

  lemma FileFirst(f: File)
    requires FileOk(f)
    ensures f.contents[0].key == f.smallest && f.smallest.user <= f.largest.user && !Precedes(f.largest, f.smallest)
  {
    FileOrder(f, f.contents[0]);
  }

  // The first boundary file starts with the newest entry that a dropped deletion of its user key was hiding.
  lemma BoundaryIsNewest(db: Database, c: Compaction, t: Entry, k: IKey, g: File)
    requires DatabaseOk(db) && CompactionOk(db.current, c) && t in InputEntries(c)
    requires !CoveredDeeper(db.current, c.level, t.key.user) && t.key.user == k.user
    requires FileAt(db.current, c.level + 1, g) && IsLargest(c.inputs1, k) && FirstAfter(db.current[c.level + 1], k, g)
    ensures IsNewest(RestOf(db, c), t.key.user, t.key.sequence, g.contents[0])
    ensures g.contents[0].key == g.smallest
  {
    hide CoveredDeeper, RestOf, InputEntries, CompactionOk;
    BoundaryIsRest(db, c, k, g);
    BoundaryIsOlder(db, c, t, k, g);
    forall r | r in RestOf(db, c) && Shows(r, t.key.user, t.key.sequence)
      ensures r.key.sequence <= g.contents[0].key.sequence
    {
      var l, h := OlderIsBelow(db, c, t, r);
      FileOrder(h, r);
      var k' := OlderIsBoundary(db, c, t, h, r);
      LargestUnique(c.inputs1, k);
      assert !Less(h.smallest, g.smallest);
    }
  }

  // A dropped deletion hides a value elsewhere exactly when the guard holds.
  lemma ResurrectsIffUncovers(db: Database, c: Compaction, oldest: SequenceNumber)
    requires DatabaseOk(db) && CompactionOk(db.current, c)
    ensures (exists t :: Resurrects(InputEntries(c), RestOf(db, c), oldest, BaseOf(db.current, c.level), t))
            <==> Uncovers(db, c, oldest)
  {
    hide Uncovers, UncoversAt, Resurrects, RestOf, InputEntries, CompactionOk, DatabaseOk;
    ContentsSplitPicked(db, c);
    if t :| Resurrects(InputEntries(c), RestOf(db, c), oldest, BaseOf(db.current, c.level), t) {
      ResurrectionUncovers(db, c, oldest, t);
    }
    if Uncovers(db, c, oldest) {
      UncoveringResurrects(db, c, oldest);
    }
  }

  lemma ContentsSplitPicked(db: Database, c: Compaction)
    requires DatabaseOk(db) && CompactionOk(db.current, c)
    ensures Contents(db) == InputEntries(c) + RestOf(db, c)
  {
    hide Contents, InputEntries, RestOf, DatabaseOk, CompactionOk;
    PickedInputs(db.current, c);
    ContentsSplit(db, c);
  }

  lemma UncoveringResurrects(db: Database, c: Compaction, oldest: SequenceNumber)
    requires DatabaseOk(db) && CompactionOk(db.current, c) && Contents(db) == InputEntries(c) + RestOf(db, c)
    requires Uncovers(db, c, oldest)
    ensures exists t :: Resurrects(InputEntries(c), RestOf(db, c), oldest, BaseOf(db.current, c.level), t)
  {
    hide RestOf, InputEntries, CompactionOk, CoveredDeeper, DatabaseOk;
    var t, g :| UncoversAt(db, c, oldest, t, g);
    var k :| IsLargest(c.inputs1, k) && FirstAfter(db.current[c.level + 1], k, g);
    BoundaryIsNewest(db, c, t, k, g);
    assert Resurrects(InputEntries(c), RestOf(db, c), oldest, BaseOf(db.current, c.level), t);
  }

  lemma ResurrectionUncovers(db: Database, c: Compaction, oldest: SequenceNumber, t: Entry)
    requires DatabaseOk(db) && CompactionOk(db.current, c) && Contents(db) == InputEntries(c) + RestOf(db, c)
    requires Resurrects(InputEntries(c), RestOf(db, c), oldest, BaseOf(db.current, c.level), t)
    ensures Uncovers(db, c, oldest)
  {
    hide InputEntries, RestOf, CoveredDeeper, VersionOk, IsBoundary, IsLargest, Chosen;
    var files := db.current[c.level + 1];
    var r :| IsNewest(RestOf(db, c), t.key.user, t.key.sequence, r) && r.key.kind.Value?;
    var l, h := OlderIsBelow(db, c, t, r);
    var k := OlderIsBoundary(db, c, t, h, r);
    var n := FirstBoundaryExists(files, |files|, k);
    var g := files[n];
    assert FirstAfter(files, k, g);
    BoundaryIsNewest(db, c, t, k, g);
    DatabaseUnique(db);
    FileAtOk(db.current, c.level + 1, g);
    assert r in Contents(db) && g.contents[0] in Contents(db) && r == g.contents[0];
    assert Continues(files, c.inputs1, g);
    assert UncoversAt(db, c, oldest, t, g);
  }

  // The guard can be tested before the compaction, with the searches the code already has.
  method TestUncovers(db: Database, c: Compaction, oldest: SequenceNumber) returns (bad: bool)
    requires DatabaseOk(db) && c.level + 1 < |db.current|
    ensures bad <==> Uncovers(db, c, oldest)
  {
    hide InputEntries, CoveredDeeper, Contents, DatabaseOk, IsNewest, Uncovers, IsLargest, IsBoundary;
    if c.inputs1 == [] {
      NoBoundary(db, c, oldest);
      return false;
    }
    var _, k := GetRange(c.inputs1);
    var b := FindSmallestBoundaryFile(db.current[c.level + 1], k);
    var r := Find(db, k.user, oldest);
    var covered := TestCovered(db.current, c.level, k.user);
    var input := false;
    if r.Hit? {
      input := IsInputEntry(c, r.entry);
    }
    UncoversIff(db, c, oldest, k, b, r);
    bad := b.Some? && b.value.smallest.kind.Value? && r.Hit? && r.entry.key.kind.Deletion? && input && !covered;
  }

  lemma NoBoundary(db: Database, c: Compaction, oldest: SequenceNumber)
    requires c.inputs1 == []
    ensures !Uncovers(db, c, oldest)
  {
    hide InputEntries, CoveredDeeper, Contents, IsNewest;
  }

  // The candidates are the first boundary file and what the oldest snapshot reads of its key.
  lemma UncoversIff(db: Database, c: Compaction, oldest: SequenceNumber, k: IKey, b: Option<File>, r: Lookup)
    requires DatabaseOk(db) && c.level + 1 < |db.current| && IsLargest(c.inputs1, k)
    requires var files := db.current[c.level + 1];
             if b.None? then forall i :: 0 <= i < |files| ==> !IsBoundary(files[i], k)
             else b.value in files && IsBoundary(b.value, k)
                  && forall i :: 0 <= i < |files| && IsBoundary(files[i], k) ==> !Less(files[i].smallest, b.value.smallest)
    requires r.Missing? ==> ShowsNothing(Contents(db), k.user, oldest)
    requires r.Hit? ==> IsNewest(Contents(db), k.user, oldest, r.entry)
    ensures Uncovers(db, c, oldest) <==>
              && b.Some? && b.value.smallest.kind.Value?
              && r.Hit? && r.entry.key.kind.Deletion? && r.entry in InputEntries(c)
              && !CoveredDeeper(db.current, c.level, k.user)
  {
    hide InputEntries, CoveredDeeper, Contents, DatabaseOk;
    var files := db.current[c.level + 1];
    DatabaseUnique(db);
    forall t, g | UncoversAt(db, c, oldest, t, g)
      ensures b.Some? && g.smallest == b.value.smallest && r.Hit? && t == r.entry && t.key.user == k.user
    {
      SameFirst(files, c.inputs1, k, b, g);
      OneNewest(Contents(db), k.user, oldest, t, r);
    }
    if b.Some? && r.Hit? {
      assert FirstAfter(files, k, b.value);
      assert UncoversAt(db, c, oldest, r.entry, b.value) <==>
               && b.value.smallest.kind.Value? && r.entry.key.kind.Deletion? && r.entry in InputEntries(c)
               && !CoveredDeeper(db.current, c.level, k.user);
    }
  }

  lemma OneNewest(es: set<Entry>, u: UserKey, s: SequenceNumber, t: Entry, r: Lookup)
    requires Unique(es) && IsNewest(es, u, s, t)
    requires r.Missing? ==> ShowsNothing(es, u, s)
    requires r.Hit? ==> IsNewest(es, u, s, r.entry)
    ensures r.Hit? && r.entry == t
  {
  }

  lemma SameFirst(files: seq<File>, chosen: seq<File>, k: IKey, b: Option<File>, g: File)
    requires IsLargest(chosen, k) && Continues(files, chosen, g)
    requires if b.None? then forall i :: 0 <= i < |files| ==> !IsBoundary(files[i], k)
             else b.value in files && IsBoundary(b.value, k)
                  && forall i :: 0 <= i < |files| && IsBoundary(files[i], k) ==> !Less(files[i].smallest, b.value.smallest)
    ensures b.Some? && g.smallest == b.value.smallest && g.smallest.user == k.user
  {
    LargestUnique(chosen, k);
    assert IsBoundary(g, k) && b.Some?;
    assert !Less(g.smallest, b.value.smallest) && !Less(b.value.smallest, g.smallest);
    assert Tag(g.smallest) == Tag(b.value.smallest);
  }

  method IsInputEntry(c: Compaction, e: Entry) returns (found: bool)
    ensures found <==> e in InputEntries(c)
  {
    found := false;
    for i := 0 to |c.inputs0|
      invariant found <==> exists j :: 0 <= j < i && e in c.inputs0[j].contents
    {
      found := found || e in c.inputs0[i].contents;
    }
    for i := 0 to |c.inputs1|
      invariant found <==> e in Entries(c.inputs0) || exists j :: 0 <= j < i && e in c.inputs1[j].contents
    {
      found := found || e in c.inputs1[i].contents;
    }
  }

  method TestCovered(v: Levels, level: nat, u: UserKey) returns (covered: bool)
    ensures covered <==> CoveredDeeper(v, level, u)
  {
    var l := level + 2;
    while l < |v|
      invariant forall m, i :: level + 2 <= m < l && m < |v| && 0 <= i < |v[m]| ==> !Covers(v[m][i], u)
    {
      for i := 0 to |v[l]|
        invariant forall j :: 0 <= j < i ==> !Covers(v[l][j], u)
      {
        if Covers(v[l][i], u) {
          return true;
        }
      }
      l := l + 1;
    }
    return false;
  }

  // Nothing that the oldest snapshot can see outside the inputs has changed since they were picked.
  ghost predicate SameRest(picked: Database, db: Database, c: Compaction, oldest: SequenceNumber) {
    forall e: Entry :: e.key.sequence <= oldest ==> (e in RestOf(db, c) <==> e in RestOf(picked, c))
  }

  lemma SameResurrections(picked: Database, db: Database, c: Compaction, oldest: SequenceNumber,
                          base: UserKey -> bool, t: Entry)
    requires SameRest(picked, db, c, oldest)
    ensures Resurrects(InputEntries(c), RestOf(db, c), oldest, base, t)
            <==> Resurrects(InputEntries(c), RestOf(picked, c), oldest, base, t)
  {
    hide InputEntries, RestOf;
    var now, before := RestOf(db, c), RestOf(picked, c);
    if t.key.sequence <= oldest {
      assert forall r :: IsNewest(now, t.key.user, t.key.sequence, r) <==> IsNewest(before, t.key.user, t.key.sequence, r);
      assert IsNewest(InputEntries(c) + now, t.key.user, oldest, t) <==> IsNewest(InputEntries(c) + before, t.key.user, oldest, t);
    }
  }

  // A whole compaction, its inputs picked from `picked` and its outputs installed on `db` after any number of writes
  // and flushes: the two exact conditions.
  lemma InstallCorrectIff(picked: Database, db: Database, c: Compaction, oldest: SequenceNumber, outputs: seq<File>,
                          db': Database)
    requires DatabaseOk(picked) && CompactionOk(picked.current, c)
    requires DatabaseOk(db) && InputsAt(db.current, c) && SameRest(picked, db, c, oldest)
    requires OutputsFit(db.current, c, outputs)
    requires Entries(outputs) == Compacted(InputEntries(c), oldest, BaseOf(picked.current, c.level))
    requires Replaced(db.current, c, outputs, db'.current) && db'.mem == db.mem && db'.imm == db.imm
    ensures Contents(db') <= Contents(db)
    ensures DatabaseOk(db') <==> NoneStraddles(db.current, c, outputs)
    ensures SameReads(Contents(db), Contents(db'), oldest) <==> !Uncovers(picked, c, oldest)
  {
    hide Compacted, InputEntries, RestOf, Resurrects, CompactionOk, InputsAt, OutputsFit, Replaced, NoneStraddles;
    hide SameRest, VersionOk, SameReads, Uncovers;
    var base := BaseOf(picked.current, c.level);
    ContentsSplit(db, c);
    ReplacedContents(db, c, outputs, db');
    DatabaseUnique(db);
    VersionShrinks(db, c, outputs, db');
    InstallSoundIff(db.current, c, outputs, db'.current);
    CompactionPreservesReadsIff(InputEntries(c), RestOf(db, c), oldest, base);
    forall t ensures Resurrects(InputEntries(c), RestOf(db, c), oldest, base, t)
                     <==> Resurrects(InputEntries(c), RestOf(picked, c), oldest, base, t)
    {
      SameResurrections(picked, db, c, oldest, base, t);
    }
    ResurrectsIffUncovers(picked, c, oldest);
  }

  lemma VersionShrinks(db: Database, c: Compaction, outputs: seq<File>, db': Database)
    requires DatabaseOk(db) && InputsAt(db.current, c) && OutputsFit(db.current, c, outputs)
    requires Replaced(db.current, c, outputs, db'.current)
    ensures VersionEntries(db'.current) <= VersionEntries(db.current)
  {
    forall e | e in VersionEntries(db'.current) ensures e in VersionEntries(db.current) {
      InVersionIff(db.current, e);
      InVersionIff(db'.current, e);
      var l, f :| 0 <= l < |db'.current| && f in db'.current[l] && e in f.contents;
      assert FileAt(db'.current, l, f);
      if f in outputs {
        var k, source := InputOf(db.current, c, e);
      }
    }
  }

  // DoCompactionWork followed by InstallCompactionResults, on the version the inputs were picked from.
  method Compact(db: Database, c: Compaction, input: seq<Entry>, oldest: SequenceNumber, nextFile: nat,
                 fileSize: seq<Entry> -> nat, maxFileSize: nat, shutDownAt: Option<nat>) returns (ok: bool, db': Database)
    requires DatabaseOk(db) && CompactionOk(db.current, c)
    requires Sorted(input) && ToSet(input) == InputEntries(c) && oldest < MAX_SEQUENCE
    requires FreshNumber(db.current, nextFile)
    ensures DatabaseOk(db')
    ensures ok ==> (SameReads(Contents(db), Contents(db'), oldest) <==> !Uncovers(db, c, oldest))
    ensures !ok ==> db' == db
    ensures ok <==> shutDownAt.None?
  {
    PickedInputs(db.current, c);
    var work := new CompactionState(db.current, c, oldest, fileSize, maxFileSize, 10 * maxFileSize, nextFile);
    ok := work.DoCompactionWork(input, shutDownAt);
    if !ok {
      return false, db;
    }
    var outputs := work.outputs;
    OutputsFromWork(db, c, input, oldest, outputs, nextFile);
    var after := InstallResults(db.current, c, outputs);
    db' := db.(current := after);
    InstallCorrectIff(db, db, c, oldest, outputs, db');
    PickedNoneStraddles(db.current, c, outputs);
  }

  lemma OutputsFromWork(db: Database, c: Compaction, input: seq<Entry>, oldest: SequenceNumber, outputs: seq<File>,
                        firstFile: nat)
    requires DatabaseOk(db) && InputsAt(db.current, c) && FreshNumber(db.current, firstFile)
    requires Sorted(input) && ToSet(input) == InputEntries(c) && oldest < MAX_SEQUENCE
    requires forall i :: 0 <= i < |outputs| ==> Shaped(outputs[i]) && outputs[i].number >= firstFile
    requires forall i, j :: 0 <= i < j < |outputs| ==> outputs[i].number < outputs[j].number
    requires Flat(Runs(outputs)) == Kept(input, |input|, oldest, BaseOf(db.current, c.level))
    ensures OutputsFit(db.current, c, outputs) && NumbersFit(db.current, c, outputs)
    ensures Entries(outputs) == Compacted(InputEntries(c), oldest, BaseOf(db.current, c.level))
  {
    WorkEntries(c, input, oldest, outputs, BaseOf(db.current, c.level));
    forall f, e | f in outputs && e in f.contents ensures FromInputs(c, e) {
      var i :| 0 <= i < |outputs| && outputs[i] == f;
      assert e in Entries(outputs);
      InputEntriesIff(c, e);
    }
  }

  lemma WorkEntries(c: Compaction, input: seq<Entry>, oldest: SequenceNumber, outputs: seq<File>,
                    base: UserKey -> bool)
    requires Sorted(input) && ToSet(input) == InputEntries(c) && oldest < MAX_SEQUENCE
    requires forall i :: 0 <= i < |outputs| ==> Shaped(outputs[i])
    requires Flat(Runs(outputs)) == Kept(input, |input|, oldest, base)
    ensures FilesOk(outputs) && Disjoint(outputs)
    ensures Entries(outputs) == Compacted(InputEntries(c), oldest, base)
  {
    KeptIsSorted(input, |input|, oldest, base);
    KeptIsCompacted(input, oldest, base);
    CutsAreDisjoint(outputs);
    forall e ensures e in Entries(outputs) <==> e in ToSet(Flat(Runs(outputs))) {
      RunsIff(outputs, e);
    }
  }

  // Compaction::IsTrivialMove
  predicate IsTrivialMove(c: Compaction, maxFileSize: nat) {
    |c.inputs0| == 1 && |c.inputs1| == 0 && TotalFileSize(c.grandparents) <= 10 * maxFileSize
  }

  // With the inputs SetupOtherInputs makes, a file is moved only when nothing of the next level is in its range and it
  // reaches over at most ten files' worth of the level it could be compacted into next.
  lemma TrivialMoveIsCheap(v: Levels, level: nat, picked: seq<File>, c: Compaction, maxFileSize: nat)
    requires |v| == NUM_LEVELS && level + 2 < NUM_LEVELS && SetUp(v, level, picked, maxFileSize, c) && |c.inputs0| == 1
    ensures var f := c.inputs0[0];
            IsTrivialMove(c, maxFileSize) <==>
              && Meeting(v[level + 1], Some(f.smallest.user), Some(f.largest.user)) == []
              && TotalFileSize(Meeting(v[level + 2], Some(f.smallest.user), Some(f.largest.user))) <= 10 * maxFileSize
  {
    hide WithBoundaries, InRange, TotalFileSize, Meeting, NextInputs, IsLargest, Grows;
    var f := c.inputs0[0];
    assert c.inputs0 == [f];
    var plain0, inRange, grown0, grown1 :| IsSetUp(v, level, picked, maxFileSize, c, plain0, inRange, grown0, grown1);
    OnePlain(v, level, picked, maxFileSize, c, plain0, inRange, grown0, grown1);
    RangeOfOne(v[level + 1], f, c.inputs1);
    if c.inputs1 == [] {
      assert c.inputs0 + c.inputs1 == [f];
      RangeOfOne(v[level + 2], f, c.grandparents);
    }
  }

  lemma OnePlain(v: Levels, level: nat, picked: seq<File>, maxFileSize: nat, c: Compaction, plain0: seq<File>,
                 inRange: seq<File>, grown0: seq<File>, grown1: seq<File>)
    requires level + 2 < NUM_LEVELS == |v| && |c.inputs0| == 1
    requires IsSetUp(v, level, picked, maxFileSize, c, plain0, inRange, grown0, grown1)
    ensures NextInputs(v[level + 1], c.inputs0, c.inputs1)
  {
    hide WithBoundaries, InRange, TotalFileSize, Meeting;
    assert plain0 != [];
  }

  lemma RangeOfOne(files: seq<File>, f: File, chosen: seq<File>)
    requires NextInputs(files, [f], chosen)
    ensures chosen == Meeting(files, Some(f.smallest.user), Some(f.largest.user))
  {
    hide Meeting;
    var s, l :| IsSmallest([f], s) && IsLargest([f], l) && chosen == Meeting(files, Some(s.user), Some(l.user));
  }

  // A trivial move relinks one file a level deeper; the database holds the same entries afterwards.
  method TrivialMove(db: Database, c: Compaction, maxFileSize: nat) returns (db': Database)
    requires DatabaseOk(db) && CompactionOk(db.current, c) && IsTrivialMove(c, maxFileSize)
    ensures DatabaseOk(db') && Contents(db') == Contents(db)
  {
    var f := c.inputs0[0];
    PickedInputs(db.current, c);
    MoveFits(db.current, c);
    var after := InstallResults(db.current, c, [f]);
    db' := db.(current := after);
    assert c.inputs0 == [f];
    MoveKeepsContents(db, c, db');
  }

  lemma MoveKeepsContents(db: Database, c: Compaction, db': Database)
    requires DatabaseOk(db) && CompactionOk(db.current, c) && |c.inputs0| == 1 && |c.inputs1| == 0
    requires Replaced(db.current, c, c.inputs0, db'.current) && db'.mem == db.mem && db'.imm == db.imm
    ensures DatabaseOk(db') && Contents(db') == Contents(db)
  {
    PickedInputs(db.current, c);
    MoveFits(db.current, c);
    PickedNoneStraddles(db.current, c, c.inputs0);
    ReplaceKeepsVersionOk(db.current, c, c.inputs0, db'.current);
    ContentsSplit(db, c);
    ReplacedContents(db, c, c.inputs0, db');
    assert Entries(c.inputs1) == {};
    VersionShrinks(db, c, c.inputs0, db');
  }

  lemma MoveFits(v: Levels, c: Compaction)
    requires VersionOk(v) && CompactionOk(v, c) && |c.inputs0| == 1 && |c.inputs1| == 0
    ensures OutputsFit(v, c, c.inputs0) && NumbersFit(v, c, c.inputs0)
  {
    var f := c.inputs0[0];
    assert Among(c.inputs0, v[c.level]) && f in c.inputs0;
    assert FileAt(v, c.level, f) && IsInput(c, c.level, f);
  }
}
