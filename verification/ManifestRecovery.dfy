/** VersionSet::WriteSnapshot and VersionSet::Recover (db/version_set.cc 862-986, 1064-1092): from the bytes of a manifest,
    whole or cut short, back to the version set that wrote it. */
module ManifestRecovery {
  import opened InternalKeys
  import opened Coding
  import opened Log
  import opened Files
  import opened Picking
  import opened VersionBuilder
  import opened Manifest
  import VersionEdits

  type VersionEdit = VersionEdits.VersionEdit
  type Meta = VersionEdits.Meta

  // What encoded internal keys and table numbers stand for; everything below holds for any such reading.
  datatype Reading = Reading(key: Bytes -> IKey, table: Word64 -> seq<Entry>)

  function FileOf(m: Reading, f: Meta): File {
    File(f.number, f.size, m.key(f.smallest), m.key(f.largest), m.table(f.number))
  }

  function Added(m: Reading, files: seq<(nat, Meta)>): (added: seq<(nat, File)>)
    ensures |added| == |files| && forall i :: 0 <= i < |files| ==> added[i] == (files[i].0, FileOf(m, files[i].1))
  {
    seq(|files|, i requires 0 <= i < |files| => (files[i].0, FileOf(m, files[i].1)))
  }

  function Pointed(m: Reading, ps: seq<(nat, Bytes)>): (pointers: seq<(nat, IKey)>)
    ensures |pointers| == |ps| && forall i :: 0 <= i < |ps| ==> pointers[i] == (ps[i].0, m.key(ps[i].1))
  {
    seq(|ps|, i requires 0 <= i < |ps| => (ps[i].0, m.key(ps[i].1)))
  }

  // The edit a record stands for: same levels and numbers, keys as read.
  function EditOf(m: Reading, e: VersionEdit): Edit {
    Edit(e.deleted, Added(m, e.newFiles), Pointed(m, e.compactPointers))
  }

  function EditsOf(m: Reading, edits: seq<VersionEdit>): (r: seq<Edit>)
    ensures |r| == |edits| && forall i :: 0 <= i < |edits| ==> r[i] == EditOf(m, edits[i])
  {
    seq(|edits|, i requires 0 <= i < |edits| => EditOf(m, edits[i]))
  }

  lemma LevelsInRange(m: Reading, e: VersionEdit)
    requires VersionEdits.LevelsOk(e)
    ensures EditOk(EditOf(m, e))
  {
  }

  ghost predicate AllInRange(edits: seq<VersionEdit>) {
    forall i :: 0 <= i < |edits| ==> VersionEdits.LevelsOk(edits[i])
  }

  lemma EditsInRange(m: Reading, edits: seq<VersionEdit>)
    requires AllInRange(edits)
    ensures forall i :: 0 <= i < |edits| ==> EditOk(EditsOf(m, edits)[i])
  {
    hide EditOk, EditOf, VersionEdits.LevelsOk;
    forall i | 0 <= i < |edits| ensures EditOk(EditsOf(m, edits)[i]) {
      LevelsInRange(m, edits[i]);
    }
  }

  // --- The counters ---

  datatype Counters = Counters(log: Option<Word64>, prevLog: Option<Word64>, nextFile: Option<Word64>,
                               lastSequence: Option<Word64>)

  function Later(before: Option<Word64>, now: Option<Word64>): Option<Word64> {
    if now.Some? then now else before
  }

  function Note(c: Counters, e: VersionEdit): Counters {
    Counters(Later(c.log, e.logNumber), Later(c.prevLog, e.prevLogNumber), Later(c.nextFile, e.nextFileNumber),
             Later(c.lastSequence, e.lastSequence))
  }

  function Noted(edits: seq<VersionEdit>): Counters {
    if edits == [] then Counters(None, None, None, None)
    else Note(Noted(edits[..|edits| - 1]), edits[|edits| - 1])
  }

  predicate Complete(c: Counters) {
    c.nextFile.Some? && c.log.Some? && c.lastSequence.Some?
  }

  // --- Recover ---

  datatype VersionSet = VersionSet(files: Levels, pointers: CompactPointers, logNumber: Word64, prevLogNumber: Word64,
                                   manifestNumber: Word64, lastSequence: Word64)

  // Every record decoded into a fresh edit.
  function DecodeAll(records: seq<Bytes>): Option<seq<VersionEdit>> {
    if records == [] then Some([])
    else
      match DecodeAll(records[..|records| - 1])
      case None => None
      case Some(edits) =>
        match VersionEdits.DecodeLoop(VersionEdits.Clear(VersionEdits.Fresh), records[|records| - 1])
        case None => None
        case Some(e) => Some(edits + [e])
  }

  predicate SameComparator(edits: seq<VersionEdit>, comparator: Bytes) {
    forall i :: 0 <= i < |edits| && edits[i].comparator.Some? ==> edits[i].comparator.value == comparator
  }

  // The version set that one builder over these edits gives.
  ghost predicate Rebuilt(m: Reading, edits: seq<VersionEdit>, vs: VersionSet)
    requires AllInRange(edits)
  {
    EditsInRange(m, edits);
    var st, c := Built(EditsOf(m, edits)), Noted(edits);
    && |vs.files| == NUM_LEVELS
    && (forall l :: 0 <= l < NUM_LEVELS ==> Ascending(vs.files[l]) && Saved(vs.files[l], [], st.added[l], st.deleted[l]))
    && vs.pointers == PointersAfter(NoPointers(), EditsOf(m, edits))
    && c.log == Some(vs.logNumber) && c.nextFile == Some(vs.manifestNumber) && c.lastSequence == Some(vs.lastSequence)
    && vs.prevLogNumber == (if c.prevLog.Some? then c.prevLog.value else 0)
  }

  lemma DecodedOnce(record: Bytes)
    ensures var e := VersionEdits.DecodeLoop(VersionEdits.Clear(VersionEdits.Fresh), record);
            e.Some? ==> VersionEdits.LevelsOk(e.value)
  {
    VersionEdits.DecodedLevels(VersionEdits.Clear(VersionEdits.Fresh), record);
  }

  lemma {:induction false} DecodedInRange(records: seq<Bytes>)
    ensures DecodeAll(records).Some? ==> AllInRange(DecodeAll(records).value)
  {
    hide VersionEdits.DecodeLoop;
    if records != [] {
      DecodedInRange(records[..|records| - 1]);
      DecodedOnce(records[|records| - 1]);
    }
  }

  // One more edit through the builder.
  lemma BuiltMore(m: Reading, edits: seq<VersionEdit>, e: VersionEdit)
    requires AllInRange(edits) && VersionEdits.LevelsOk(e)
    ensures AllInRange(edits + [e])
    ensures (forall i :: 0 <= i < |edits| ==> EditOk(EditsOf(m, edits)[i])) && EditOk(EditOf(m, e))
    ensures forall i :: 0 <= i < |edits| + 1 ==> EditOk(EditsOf(m, edits + [e])[i])
    ensures Built(EditsOf(m, edits + [e])) == ApplyEdit(Built(EditsOf(m, edits)), EditOf(m, e))
    ensures PointersAfter(NoPointers(), EditsOf(m, edits + [e]))
            == SetPointers(PointersAfter(NoPointers(), EditsOf(m, edits)), EditOf(m, e).pointers)
    ensures Noted(edits + [e]) == Note(Noted(edits), e)
  {
    hide EditOf, ApplyEdit, SetPointers, EditOk, VersionEdits.LevelsOk, Note;
    EditsInRange(m, edits);
    LevelsInRange(m, e);
    EditsInRange(m, edits + [e]);
    assert EditsOf(m, edits + [e])[..|edits|] == EditsOf(m, edits);
    assert (edits + [e])[..|edits|] == edits;
  }

  // Fails exactly on a corrupt log, an unreadable record, another comparator or a missing counter.
  method Recover(m: Reading, disk: Bytes, comparator: Bytes) returns (r: Option<VersionSet>)
    ensures var (records, reports) := ReadAll(disk, 0);
            var edits := DecodeAll(records);
            && (r.Some? <==>
                  reports == 0 && edits.Some? && SameComparator(edits.value, comparator) && Complete(Noted(edits.value)))
            && (r.Some? ==> AllInRange(edits.value) && Rebuilt(m, edits.value, r.value))
  {
    hide ReadAll, VersionEdits.DecodeLoop, EditOf, Built, PointersAfter, ApplyEdit, SetPointers, EditOk, Noted, Note;
    hide VersionEdits.LevelsOk, Saved, Ascending;
    var records, reports := ReadLog(disk);
    NoFilesAscend();
    var builder := new Builder(NoFiles(), NoPointers());
    var counters := Counters(None, None, None, None);
    ghost var edits: seq<VersionEdit> := [];
    NothingYet(m);
    if reports > 0 {
      return None;
    }
    DecodedInRange(records);
    for i := 0 to |records|
      invariant fresh(builder) && builder.Valid() && builder.base == NoFiles()
      invariant DecodeAll(records[..i]) == Some(edits) && SameComparator(edits, comparator) && AllInRange(edits)
      invariant forall k :: 0 <= k < |edits| ==> EditOk(EditsOf(m, edits)[k])
      invariant State(builder.deleted, builder.added) == Built(EditsOf(m, edits))
      invariant builder.compactPointers == PointersAfter(NoPointers(), EditsOf(m, edits))
      invariant counters == Noted(edits)
    {
      assert records[..i + 1][..i] == records[..i];
      var e := VersionEdits.DecodeFrom(VersionEdits.Fresh, records[i]);
      if e.None? {
        StaysUndecoded(records, i + 1);
        return None;
      }
      if e.value.comparator.Some? && e.value.comparator.value != comparator {
        OtherComparator(records, i, comparator);
        return None;
      }
      DecodedOnce(records[i]);
      BuiltMore(m, edits, e.value);
      builder.Apply(EditOf(m, e.value));
      counters := Note(counters, e.value);
      edits := edits + [e.value];
    }
    assert records[..|records|] == records;
    if counters.nextFile.None? || counters.log.None? || counters.lastSequence.None? {
      return None;
    }
    var prevLog := if counters.prevLog.Some? then counters.prevLog.value else 0;
    var files := builder.SaveTo();
    r := Some(VersionSet(files, builder.compactPointers, counters.log.value, prevLog, counters.nextFile.value,
                         counters.lastSequence.value));
    forall l | 0 <= l < NUM_LEVELS ensures Ascending(files[l]) {
      NoBaseNoClash(builder.added[l]);
    }
  }

  lemma NoFilesAscend()
    ensures forall l :: 0 <= l < NUM_LEVELS ==> Ascending(NoFiles()[l])
  {
  }

  lemma NoBaseNoClash(added: seq<File>)
    ensures NoClash([], added)
  {
  }

  lemma NothingYet(m: Reading)
    ensures EditsOf(m, []) == [] && Built(EditsOf(m, [])) == EmptyState() && DecodeAll([]) == Some([])
    ensures PointersAfter(NoPointers(), EditsOf(m, [])) == NoPointers() && Noted([]) == Counters(None, None, None, None)
  {
  }

  lemma {:induction false} StaysUndecoded(records: seq<Bytes>, n: nat)
    requires n <= |records| && DecodeAll(records[..n]).None?
    ensures DecodeAll(records).None?
    decreases |records| - n
  {
    hide VersionEdits.DecodeLoop;
    if n < |records| {
      assert records[..n + 1][..n] == records[..n];
      StaysUndecoded(records, n + 1);
    } else {
      assert records[..n] == records;
    }
  }

  lemma {:induction false} DecodedPrefix(records: seq<Bytes>, n: nat)
    requires n <= |records| && DecodeAll(records).Some?
    ensures DecodeAll(records[..n]).Some? && DecodeAll(records[..n]).value <= DecodeAll(records).value
    decreases |records|
  {
    hide VersionEdits.DecodeLoop;
    if n < |records| {
      var init := records[..|records| - 1];
      DecodedPrefix(init, n);
      assert init[..n] == records[..n];
    } else {
      assert records[..n] == records;
    }
  }

  lemma OtherComparator(records: seq<Bytes>, i: nat, comparator: Bytes)
    requires i < |records| && DecodeAll(records[..i + 1]).Some?
    requires var edits := DecodeAll(records[..i + 1]).value;
             edits != [] && edits[|edits| - 1].comparator.Some? && edits[|edits| - 1].comparator.value != comparator
    ensures DecodeAll(records).Some? ==> !SameComparator(DecodeAll(records).value, comparator)
  {
    if DecodeAll(records).Some? {
      DecodedPrefix(records, i + 1);
      var k := |DecodeAll(records[..i + 1]).value| - 1;
      assert DecodeAll(records).value[k].comparator.Some?;
    }
  }

  // --- WriteSnapshot ---

  function MetaFiles(m: Reading, metas: seq<Meta>): (files: seq<File>)
    ensures |files| == |metas| && forall i :: 0 <= i < |metas| ==> files[i] == FileOf(m, metas[i])
  {
    seq(|metas|, i requires 0 <= i < |metas| => FileOf(m, metas[i]))
  }

  // The file lists that a version's metadata stand for.
  function FilesOf(m: Reading, v: seq<seq<Meta>>): (files: Levels)
    ensures |files| == |v| && forall l :: 0 <= l < |v| ==> files[l] == MetaFiles(m, v[l])
  {
    seq(|v|, l requires 0 <= l < |v| => MetaFiles(m, v[l]))
  }

  function ReadPointer(m: Reading, p: Bytes): Option<IKey> {
    if p == [] then None else Some(m.key(p))
  }

  // The first n levels of encoded compaction pointers, an empty string where a level has none.
  function ReadPointers(m: Reading, pointers: seq<Bytes>, n: nat): (r: CompactPointers)
    requires |pointers| == NUM_LEVELS && n <= NUM_LEVELS
    ensures forall l :: 0 <= l < NUM_LEVELS ==> r[l] == if l < n then ReadPointer(m, pointers[l]) else None
  {
    seq(NUM_LEVELS, l requires 0 <= l < NUM_LEVELS => if l < n then ReadPointer(m, pointers[l]) else None)
  }

  // The snapshot record names the comparator, every compaction pointer and every file, and nothing else.
  ghost predicate IsSnapshot(m: Reading, comparator: Bytes, pointers: seq<Bytes>, v: seq<seq<Meta>>, e: VersionEdit)
    requires |pointers| == |v| == NUM_LEVELS
  {
    && VersionEdits.LevelsOk(e) && EditOk(EditOf(m, e))
    && e.comparator == Some(comparator) && Note(Noted([]), e) == Noted([]) && e.deleted == {}
    && (forall l: nat, f :: Adds(EditOf(m, e).added, l, f) <==> l < NUM_LEVELS && f in FilesOf(m, v)[l])
    && SetPointers(NoPointers(), EditOf(m, e).pointers) == ReadPointers(m, pointers, NUM_LEVELS)
    && Names(e.compactPointers, pointers, NUM_LEVELS)
  }

  // Exactly the pointers of the first n levels that have one.
  ghost predicate Names(ps: seq<(nat, Bytes)>, pointers: seq<Bytes>, n: nat)
    requires n <= |pointers|
  {
    forall l: nat, p: Bytes :: (l, p) in ps <==> l < n && p == pointers[l] && |p| > 0
  }

  method WriteSnapshot(m: Reading, comparator: Bytes, pointers: seq<Bytes>, v: seq<seq<Meta>>) returns (e: VersionEdit)
    requires |pointers| == |v| == NUM_LEVELS
    ensures IsSnapshot(m, comparator, pointers, v, e)
  {
    var ps := SnapshotPointers(m, pointers);
    var files := SnapshotFiles(m, v);
    e := VersionEdits.VersionEdit(Some(comparator), None, None, None, None, ps, {}, files);
    LevelsInRange(m, e);
  }

  method SnapshotPointers(m: Reading, pointers: seq<Bytes>) returns (ps: seq<(nat, Bytes)>)
    requires |pointers| == NUM_LEVELS
    ensures forall i :: 0 <= i < |ps| ==> ps[i].0 < NUM_LEVELS
    ensures SetPointers(NoPointers(), Pointed(m, ps)) == ReadPointers(m, pointers, NUM_LEVELS)
    ensures Names(ps, pointers, NUM_LEVELS)
  {
    ps := [];
    assert Pointed(m, ps) == [];
    for level := 0 to NUM_LEVELS
      invariant forall i :: 0 <= i < |ps| ==> ps[i].0 < NUM_LEVELS
      invariant SetPointers(NoPointers(), Pointed(m, ps)) == ReadPointers(m, pointers, level)
      invariant Names(ps, pointers, level)
    {
      if pointers[level] != [] {
        ghost var before := ps;
        ps := ps + [(level, pointers[level])];
        assert Pointed(m, ps)[..|before|] == Pointed(m, before);
        assert ReadPointers(m, pointers, level)[level := Some(m.key(pointers[level]))] == ReadPointers(m, pointers, level + 1);
      } else {
        assert ReadPointers(m, pointers, level) == ReadPointers(m, pointers, level + 1);
      }
    }
  }

  method SnapshotFiles(m: Reading, v: seq<seq<Meta>>) returns (files: seq<(nat, Meta)>)
    requires |v| == NUM_LEVELS
    ensures forall i :: 0 <= i < |files| ==> files[i].0 < NUM_LEVELS
    ensures forall l: nat, f :: Adds(Added(m, files), l, f) <==> l < NUM_LEVELS && f in FilesOf(m, v)[l]
  {
    files := [];
    for level := 0 to NUM_LEVELS
      invariant forall i :: 0 <= i < |files| ==> files[i].0 < NUM_LEVELS
      invariant forall l: nat, f :: Adds(Added(m, files), l, f) <==> l < level && f in FilesOf(m, v)[l]
    {
      ghost var here := FilesOf(m, v)[level];
      for i := 0 to |v[level]|
        invariant forall k :: 0 <= k < |files| ==> files[k].0 < NUM_LEVELS
        invariant forall l: nat, f :: Adds(Added(m, files), l, f)
                                      <==> (l < level && f in FilesOf(m, v)[l]) || (l == level && f in here[..i])
      {
        ghost var before := files;
        files := files + [(level, v[level][i])];
        AddsOneMore(Added(m, before), level, here[i]);
        assert Added(m, files) == Added(m, before) + [(level, here[i])];
        assert here[..i + 1] == here[..i] + [here[i]];
      }
      assert here[..|v[level]|] == here;
    }
  }

  // --- From disk back to the live run ---

  lemma {:induction false} DecodesTo(records: seq<Bytes>, edits: seq<VersionEdit>)
    requires |records| == |edits|
    requires forall i :: 0 <= i < |edits| ==>
               VersionEdits.DecodeLoop(VersionEdits.Clear(VersionEdits.Fresh), records[i]) == Some(edits[i])
    ensures DecodeAll(records) == Some(edits)
  {
    hide VersionEdits.DecodeLoop;
    if edits != [] {
      var n := |edits| - 1;
      DecodesTo(records[..n], edits[..n]);
      assert edits == edits[..n] + [edits[n]];
    }
  }

  // A manifest of these edits, of which the disk holds k whole records.
  ghost predicate OnDisk(edits: seq<VersionEdit>, disk: Bytes, k: nat) {
    exists orders, records :: OnDiskAs(edits, orders, records, disk, k)
  }

  ghost predicate OnDiskAs(edits: seq<VersionEdit>, orders: seq<seq<(nat, Word64)>>, records: seq<Bytes>, disk: Bytes, k: nat) {
    VersionEdits.Logged(edits, orders, records) && disk <= WriteAll(records) && WholeRecords(records, |disk|, k)
  }

  lemma DiskDecodes(edits: seq<VersionEdit>, disk: Bytes, k: nat)
    requires OnDisk(edits, disk, k)
    ensures k <= |edits| && ReadAll(disk, 0).1 == 0 && DecodeAll(ReadAll(disk, 0).0) == Some(edits[..k])
  {
    hide VersionEdits.DecodeLoop, ReadAll, WriteAll, WholeRecords, VersionEdits.Logged;
    var orders, records :| OnDiskAs(edits, orders, records, disk, k);
    VersionEdits.ManifestRoundTrip(edits, orders, records, disk, k);
    var read := ReadAll(disk, 0).0;
    DecodesTo(read, edits[..k]);
  }

  lemma LivePrefix(versions: seq<Levels>, edits: seq<Edit>, k: nat)
    requires LiveRun(versions, edits) && k <= |edits|
    ensures LiveRun(versions[..k + 1], edits[..k])
  {
  }

  // Whatever part of the manifest is on disk, recovery gives the version set of the live run after the edits that are
  // whole: the file lists if and only if no file is left behind, and always the compaction pointers and counters.
  method RecoverLive(m: Reading, disk: Bytes, comparator: Bytes, ghost edits: seq<VersionEdit>, ghost k: nat,
                     ghost versions: seq<Levels>) returns (r: Option<VersionSet>)
    requires OnDisk(edits, disk, k) && k <= |edits| && SameComparator(edits[..k], comparator)
    requires LiveRun(versions, EditsOf(m, edits)) && versions[0] == NoFiles() && NoTwins(EditsOf(m, edits[..k]))
    ensures r.Some? <==> Complete(Noted(edits[..k]))
    ensures r.Some? ==>
              && (r.value.files == versions[k] <==> NoneLeftBehind(EditsOf(m, edits[..k])))
              && r.value.pointers == PointersAfter(NoPointers(), EditsOf(m, edits)[..k])
              && Noted(edits[..k]).log == Some(r.value.logNumber)
              && Noted(edits[..k]).nextFile == Some(r.value.manifestNumber)
              && Noted(edits[..k]).lastSequence == Some(r.value.lastSequence)
  {
    hide ReadAll, DecodeAll, OnDisk, NoneLeftBehind, NoTwins, Built, Applied, Noted, PointersAfter, EditOf, Ascending, Saved;
    r := Recover(m, disk, comparator);
    DiskDecodes(edits, disk, k);
    if r.Some? {
      EditsInRange(m, edits[..k]);
      assert EditsOf(m, edits)[..k] == EditsOf(m, edits[..k]);
      LivePrefix(versions, EditsOf(m, edits), k);
      ReplayIsLiveIff(versions[..k + 1], EditsOf(m, edits[..k]), r.value.files);
    }
  }

  // --- A manifest that starts with a snapshot ---

  // LogAndApply gives every edit its counters.
  predicate Stamped(e: VersionEdit) {
    e.logNumber.Some? && e.prevLogNumber.Some? && e.nextFileNumber.Some? && e.lastSequence.Some?
  }

  lemma {:induction false} LastStamp(edits: seq<VersionEdit>, e: VersionEdit)
    requires Stamped(e)
    ensures Noted(edits + [e]) == Counters(e.logNumber, e.prevLogNumber, e.nextFileNumber, e.lastSequence)
  {
    assert (edits + [e])[..|edits|] == edits;
  }

  // Pointers set on top of the snapshot's are pointers set on top of the version set's.
  lemma {:induction false} PointersFrom(first: Edit, ps: CompactPointers, edits: seq<Edit>)
    requires EditOk(first) && (forall i :: 0 <= i < |edits| ==> EditOk(edits[i]))
    requires SetPointers(NoPointers(), first.pointers) == ps
    ensures forall i :: 0 <= i < |edits| + 1 ==> EditOk(([first] + edits)[i])
    ensures PointersAfter(NoPointers(), [first] + edits) == PointersAfter(ps, edits)
    decreases |edits|
  {
    hide SetPointers, EditOk;
    var all := [first] + edits;
    if edits == [] {
      assert all == [first] && all[..0] == [];
    } else {
      var n := |edits| - 1;
      PointersFrom(first, ps, edits[..n]);
      assert all[..n + 1] == [first] + edits[..n];
    }
  }

  // The live run seen from before its snapshot.
  lemma SnapshotStarts(m: Reading, comparator: Bytes, pointers: seq<Bytes>, v: seq<seq<Meta>>, snapshot: VersionEdit,
                       versions: seq<Levels>, edits: seq<VersionEdit>)
    requires |pointers| == |v| == NUM_LEVELS && IsSnapshot(m, comparator, pointers, v, snapshot)
    requires forall l :: 0 <= l < NUM_LEVELS ==> Ascending(FilesOf(m, v)[l])
    requires LiveRun(versions, EditsOf(m, edits)) && versions[0] == FilesOf(m, v)
    ensures LiveRun([NoFiles()] + versions, EditsOf(m, [snapshot] + edits))
  {
    hide Applied, EditOk, EditOf, Adds, Ascending;
    var vs, es := [NoFiles()] + versions, EditsOf(m, [snapshot] + edits);
    forall i | 0 <= i < |es| ensures EditOk(es[i]) && Applied(vs[i], es[i], vs[i + 1]) {
      if i == 0 {
        NothingDeleted(m, snapshot);
        SnapshotApplied(FilesOf(m, v), es[0]);
      } else {
        assert es[i] == EditsOf(m, edits)[i - 1] && vs[i] == versions[i - 1] && vs[i + 1] == versions[i - 1 + 1];
      }
    }
  }

  lemma NothingDeleted(m: Reading, e: VersionEdit)
    requires e.deleted == {}
    ensures EditOf(m, e).deleted == {}
  {
  }

  // The manifest that LogAndApply writes: a snapshot of the version set, then one edit after the other.  With the
  // snapshot and n >= 1 edits whole on disk, recovery gives the live file lists after those n edits if and only if no
  // file is left behind, the live compaction pointers, and the counters of the last edit; with fewer it fails.
  method RecoverAfterSnapshot(m: Reading, disk: Bytes, comparator: Bytes, ghost pointers: seq<Bytes>,
                              ghost v: seq<seq<Meta>>, ghost snapshot: VersionEdit, ghost edits: seq<VersionEdit>,
                              ghost k: nat, ghost versions: seq<Levels>) returns (r: Option<VersionSet>)
    requires |pointers| == |v| == NUM_LEVELS && IsSnapshot(m, comparator, pointers, v, snapshot)
    requires forall l :: 0 <= l < NUM_LEVELS ==> Ascending(FilesOf(m, v)[l])
    requires LiveRun(versions, EditsOf(m, edits)) && versions[0] == FilesOf(m, v)
    requires forall i :: 0 <= i < |edits| ==> Stamped(edits[i]) && edits[i].comparator.None?
    requires OnDisk([snapshot] + edits, disk, k) && k <= |edits| + 1 && NoTwins(EditsOf(m, ([snapshot] + edits)[..k]))
    ensures r.Some? <==> k >= 2
    ensures r.Some? ==>
              && (r.value.files == versions[k - 1] <==> NoneLeftBehind(EditsOf(m, ([snapshot] + edits)[..k])))
              && r.value.pointers == PointersAfter(ReadPointers(m, pointers, NUM_LEVELS), EditsOf(m, edits)[..k - 1])
              && var last := edits[k - 2];
                 && last.logNumber == Some(r.value.logNumber) && last.nextFileNumber == Some(r.value.manifestNumber)
                 && last.lastSequence == Some(r.value.lastSequence)
  {
    hide OnDisk, NoneLeftBehind, NoTwins, Applied, PointersAfter, EditOf, Ascending, IsSnapshot, SetPointers, EditOk;
    ghost var all := [snapshot] + edits;
    SnapshotStarts(m, comparator, pointers, v, snapshot, versions, edits);
    SnapshotFacts(m, comparator, pointers, v, snapshot);
    SnapshotCounters(snapshot, edits, k);
    r := RecoverLive(m, disk, comparator, all, k, [NoFiles()] + versions);
    if r.Some? {
      assert ([NoFiles()] + versions)[k] == versions[k - 1];
      ghost var later := EditsOf(m, edits)[..k - 1];
      assert EditsOf(m, all)[..k] == [EditOf(m, snapshot)] + later;
      PointersFrom(EditOf(m, snapshot), ReadPointers(m, pointers, NUM_LEVELS), later);
    }
  }

  lemma SnapshotFacts(m: Reading, comparator: Bytes, pointers: seq<Bytes>, v: seq<seq<Meta>>, e: VersionEdit)
    requires |pointers| == |v| == NUM_LEVELS && IsSnapshot(m, comparator, pointers, v, e)
    ensures EditOk(EditOf(m, e)) && e.comparator == Some(comparator) && Note(Noted([]), e) == Noted([])
    ensures SetPointers(NoPointers(), EditOf(m, e).pointers) == ReadPointers(m, pointers, NUM_LEVELS)
  {
  }

  lemma SnapshotCounters(snapshot: VersionEdit, edits: seq<VersionEdit>, k: nat)
    requires k <= |edits| + 1 && Note(Noted([]), snapshot) == Noted([])
    requires forall i :: 0 <= i < |edits| ==> Stamped(edits[i])
    ensures var c := Noted(([snapshot] + edits)[..k]);
            if k < 2 then !Complete(c)
            else c == Counters(edits[k - 2].logNumber, edits[k - 2].prevLogNumber, edits[k - 2].nextFileNumber,
                               edits[k - 2].lastSequence) && Complete(c)
  {
    var all := [snapshot] + edits;
    if k == 0 {
      assert all[..k] == [];
    } else if k == 1 {
      assert all[..k] == [snapshot] && [snapshot][..0] == [];
    } else {
      assert all[..k] == all[..k - 1] + [edits[k - 2]];
      LastStamp(all[..k - 1], edits[k - 2]);
    }
  }
}
