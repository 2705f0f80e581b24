/** Whole runs of the store: whatever writes, snapshots, flushes, moves and compactions happen, and in whatever order, a
    read at the latest state or at a held snapshot returns the newest write at or below it (db/db_impl.cc 544-575,
    697-753, 869-1046, 1110-1155, 1176-1184, 1212-1247, 1353-1377).

    A compaction is two steps, Pick and Install; between them, while the mutex is released, writes, rotations, flushes
    and snapshots go on.  The two ways in which the code can go wrong are the guards of Safe, and a step keeps the
    invariant exactly when it is safe. */
module History {
  import opened InternalKeys
  import opened Files
  import opened Picking
  import opened VersionBuilder
  import opened Versions
  import opened CompactionMeaning
  import opened CompactionWork
  import opened Steps
  import opened Snapshots

  // A running compaction: what it was picked from, its smallest_snapshot, and the file numbers it has taken.
  datatype Pending = Pending(c: Compaction, oldest: SequenceNumber, picked: Database, numbers: set<nat>)

  // `written` is every entry ever written, `last` is LastSequence(), `held` are the snapshots not yet released, oldest
  // first, and `next` is the next file number.  `horizon` is the smallest_snapshot of the last installed compaction.
  datatype World = World(db: Database, written: set<Entry>, last: SequenceNumber, held: seq<SequenceNumber>, next: nat,
                         pending: Option<Pending>, horizon: SequenceNumber)

  datatype Action =
    | Write(batch: seq<Entry>)
    | Rotate
    | Flush(level: nat, meta: File)
    | Acquire
    | Release(i: nat)
    | Move(c: Compaction)
    | Pick(c: Compaction)
    | OpenOutput
    | Install(outputs: seq<File>)
    | Abandon

  ghost predicate Init(w: World) {
    w == World(Database([], [], seq(NUM_LEVELS, _ => [])), {}, 0, [], 2, None, 0)
  }

  // Entry i of a batch takes sequence number last + 1 + i.
  ghost predicate Numbered(batch: seq<Entry>, last: nat) {
    forall i :: 0 <= i < |batch| ==> batch[i].key.sequence == last + 1 + i
  }

  // What PickLevelForMemTableOutput and the file counter guarantee of a flushed table.
  ghost predicate FlushFitsAt(v: Levels, level: nat, meta: File) {
    && level < NUM_LEVELS && FileOk(meta)
    && (level > 0 ==> forall m, f :: 0 <= m <= level && FileAt(v, m, f)
                                     ==> !Meets(f, Some(meta.smallest.user), Some(meta.largest.user)))
  }

  // smallest_snapshot of a compaction that starts now.
  function Smallest(held: seq<SequenceNumber>, last: SequenceNumber): SequenceNumber {
    if held == [] then last else held[0]
  }

  // What DoCompactionWork guarantees of the files it wrote.
  ghost predicate Worked(p: Pending, outputs: seq<File>) {
    && FilesOk(outputs) && Disjoint(outputs)
    && (forall i, j :: 0 <= i < j < |outputs| ==> outputs[i].number != outputs[j].number)
    && (forall i :: 0 <= i < |outputs| ==> outputs[i].number in p.numbers)
    && Entries(outputs) == Compacted(InputEntries(p.c), p.oldest, BaseOf(p.picked.current, p.c.level))
  }

  ghost predicate Next(w: World, a: Action, w': World) {
    match a
    case Write(batch) =>
      && Numbered(batch, w.last)
      && Sorted(w'.db.mem) && ToSet(w'.db.mem) == ToSet(w.db.mem) + ToSet(batch)
      && w'.last == w.last + |batch|
      && w' == w.(db := w.db.(mem := w'.db.mem), written := w.written + ToSet(batch), last := w'.last)
    case Rotate =>
      w.db.imm == [] && w' == w.(db := Database([], w.db.mem, w.db.current), next := w.next + 1)
    case Flush(level, meta) =>
      && FlushFitsAt(w.db.current, level, meta) && meta.contents == w.db.imm && meta.number == w.next
      && Applied(w.db.current, Edit({}, [(level, meta)], []), w'.db.current)
      && w' == w.(db := Database(w.db.mem, [], w'.db.current), next := w.next + 1)
    case Acquire =>
      w' == w.(held := w.held + [w.last])
    case Release(i) =>
      i < |w.held| && w' == w.(held := w.held[..i] + w.held[i + 1..])
    case Move(c) =>
      && w.pending.None? && CompactionOk(w.db.current, c) && |c.inputs0| == 1 && |c.inputs1| == 0
      && Replaced(w.db.current, c, c.inputs0, w'.db.current)
      && w' == w.(db := w.db.(current := w'.db.current))
    case Pick(c) =>
      && w.pending.None? && CompactionOk(w.db.current, c)
      && w' == w.(pending := Some(Pending(c, Smallest(w.held, w.last), w.db, {})))
    case OpenOutput =>
      && w.pending.Some?
      && var p := w.pending.value;
         w' == w.(pending := Some(p.(numbers := p.numbers + {w.next})), next := w.next + 1)
    case Install(outputs) =>
      && w.pending.Some? && Worked(w.pending.value, outputs)
      && Replaced(w.db.current, w.pending.value.c, outputs, w'.db.current)
      && w' == w.(db := w.db.(current := w'.db.current), pending := None, horizon := w.pending.value.oldest)
    case Abandon =>
      w' == w.(pending := None)
  }

  ghost predicate IsRun(ws: seq<World>, actions: seq<Action>) {
    && |ws| == |actions| + 1 && Init(ws[0])
    && forall i :: 0 <= i < |actions| ==> Next(ws[i], actions[i], ws[i + 1])
  }

  // The two guards of an install: no output reaches over a file that a flush has put on the output level since the
  // inputs were picked, and the inputs did not end inside a user key in the way Uncovers describes.
  ghost predicate Safe(w: World, a: Action) {
    a.Install? && w.pending.Some? ==>
      && FlushesClear(w.pending.value, w.db.current, a.outputs)
      && !Uncovers(w.pending.value.picked, w.pending.value.c, w.pending.value.oldest)
  }

  ghost predicate FlushesClear(p: Pending, v: Levels, outputs: seq<File>) {
    forall f, g :: f in outputs && FileAt(v, p.c.level + 1, g) && !FileAt(p.picked.current, p.c.level + 1, g)
                   ==> FileBefore(f, g) || FileBefore(g, f)
  }

  // --- The invariant ---

  ghost predicate SnapshotsOk(w: World) {
    && (forall i, j :: 0 <= i < j < |w.held| ==> w.held[i] <= w.held[j])
    && (forall i :: 0 <= i < |w.held| ==> w.held[i] <= w.last)
    && w.horizon <= Smallest(w.held, w.last)
  }

  ghost predicate PendingOk(w: World, p: Pending) {
    && DatabaseOk(p.picked) && CompactionOk(p.picked.current, p.c)
    && InputsAt(w.db.current, p.c) && SameRest(p.picked, w.db, p.c, p.oldest)
    && w.horizon <= p.oldest <= Smallest(w.held, w.last)
    && (forall n :: n in p.numbers ==> n < w.next)
    && (forall l, f :: FileAt(w.db.current, l, f) ==> f.number !in p.numbers)
  }

  ghost predicate Inv(w: World) {
    && DatabaseOk(w.db)
    && Unique(w.written) && Contents(w.db) <= w.written
    && (forall e :: e in w.written ==> e.key.sequence <= w.last)
    && SameReads(w.written, Contents(w.db), w.horizon)
    && FreshNumber(w.db.current, w.next)
    && SnapshotsOk(w)
    && (w.pending.Some? ==> PendingOk(w, w.pending.value))
  }

  // The store over any safe run is the simple log of writes, for every key, at the latest state and at every snapshot
  // still held.
  lemma RunsReadNewestWrite(ws: seq<World>, actions: seq<Action>, i: nat, s: SequenceNumber)
    requires IsRun(ws, actions) && (forall k :: 0 <= k < |actions| ==> Safe(ws[k], actions[k]))
    requires i < |ws| && (s in ws[i].held || s == ws[i].last)
    ensures DatabaseOk(ws[i].db)
    ensures forall u :: Read(Contents(ws[i].db), u, s) == Read(ws[i].written, u, s)
  {
    SafeRunsKeepInv(ws, actions, i);
    SmallestIsLeast(ws[i], s);
  }

  lemma SmallestIsLeast(w: World, s: SequenceNumber)
    requires SnapshotsOk(w) && (s in w.held || s == w.last)
    ensures Smallest(w.held, w.last) <= s
  {
    if s in w.held {
      var i :| 0 <= i < |w.held| && w.held[i] == s;
      assert i == 0 || w.held[0] <= w.held[i];
    }
  }

  lemma {:induction false} SafeRunsKeepInv(ws: seq<World>, actions: seq<Action>, i: nat)
    requires IsRun(ws, actions) && (forall k :: 0 <= k < |actions| ==> Safe(ws[k], actions[k])) && i < |ws|
    ensures Inv(ws[i])
    decreases i
  {
    hide Inv, Next, Safe, Init;
    if i == 0 {
      InitInv(ws[0]);
    } else {
      SafeRunsKeepInv(ws, actions, i - 1);
      assert Next(ws[i - 1], actions[i - 1], ws[i - 1 + 1]);
      NextKeepsInvIff(ws[i - 1], actions[i - 1], ws[i]);
    }
  }

  // The exact condition over whole runs: the invariant holds throughout if and only if every step is safe.
  lemma RunsKeepInvIff(ws: seq<World>, actions: seq<Action>)
    requires IsRun(ws, actions)
    ensures (forall i :: 0 <= i < |ws| ==> Inv(ws[i])) <==> (forall k :: 0 <= k < |actions| ==> Safe(ws[k], actions[k]))
  {
    hide Inv, Next, Safe, Init;
    if forall k :: 0 <= k < |actions| ==> Safe(ws[k], actions[k]) {
      forall i | 0 <= i < |ws| ensures Inv(ws[i]) {
        SafeRunsKeepInv(ws, actions, i);
      }
    }
    if forall i :: 0 <= i < |ws| ==> Inv(ws[i]) {
      forall k | 0 <= k < |actions| ensures Safe(ws[k], actions[k]) {
        assert Inv(ws[k]) && Inv(ws[k + 1]);
        NextKeepsInvIff(ws[k], actions[k], ws[k + 1]);
      }
    }
  }

  // DBImpl::Get on any state of a safe run, at the latest state or at a held snapshot.
  method GetAfterRun(ghost ws: seq<World>, ghost actions: seq<Action>, w: World, u: UserKey, s: SequenceNumber)
    returns (value: Option<Bytes>)
    requires IsRun(ws, actions) && w == ws[|ws| - 1] && forall k :: 0 <= k < |actions| ==> Safe(ws[k], actions[k])
    requires s in w.held || s == w.last
    ensures value == Read(w.written, u, s)
  {
    RunsReadNewestWrite(ws, actions, |ws| - 1, s);
    value := Get(w.db, u, s);
  }

  // The choice of smallest_snapshot (lines 899-903) from the snapshot list.
  method SmallestSnapshot(list: SnapshotList, last: SequenceNumber) returns (s: SequenceNumber)
    requires list.Valid()
    ensures s == Smallest(Sequences(list.items), last)
  {
    var empty := list.IsEmpty();
    if empty {
      s := last;
    } else {
      var oldest := list.Oldest();
      s := oldest.sequence;
      FirstIsLeast(list, oldest);
    }
  }

  ghost function Sequences(items: seq<SnapshotImpl>): (held: seq<SequenceNumber>)
    ensures |held| == |items| && forall i :: 0 <= i < |items| ==> held[i] == items[i].sequence
  {
    seq(|items|, i requires 0 <= i < |items| => items[i].sequence)
  }

  lemma FirstIsLeast(list: SnapshotList, oldest: SnapshotImpl)
    requires list.Valid() && oldest in list.items && forall t :: t in list.items ==> oldest.sequence <= t.sequence
    ensures list.items[0].sequence == oldest.sequence
  {
    var i :| 0 <= i < |list.items| && list.items[i] == oldest;
    assert i == 0 || list.items[0].sequence <= list.items[i].sequence;
    assert list.items[0] in list.items;
  }

  // --- Every step ---

  lemma InitInv(w: World)
    requires Init(w)
    ensures Inv(w)
  {
    forall e ensures e !in VersionEntries(w.db.current) {
      InVersionIff(w.db.current, e);
    }
    assert Contents(w.db) == {};
  }

  // Every step keeps the invariant, an install exactly when it is safe.
  lemma NextKeepsInvIff(w: World, a: Action, w': World)
    requires Inv(w) && Next(w, a, w')
    ensures Inv(w') <==> Safe(w, a)
  {
    match a
    case Write(batch) =>
      WriteKeepsInv(w, batch, w');
    case Rotate =>
      RotateKeepsInv(w, w');
    case Flush(level, meta) =>
      FlushKeepsInv(w, level, meta, w');
    case Acquire =>
      AcquireKeepsInv(w, w');
    case Release(i) =>
      ReleaseKeepsInv(w, i, w');
    case Move(c) =>
      MoveKeepsInv(w, c, w');
    case Pick(c) =>
      PickKeepsInv(w, c, w');
    case OpenOutput =>
      OpenKeepsInv(w, w');
    case Install(outputs) =>
      InstallKeepsInvIff(w, outputs, w');
    case Abandon =>
      AbandonKeepsInv(w, w');
  }

  lemma WriteKeepsInv(w: World, batch: seq<Entry>, w': World)
    requires Inv(w) && Next(w, Write(batch), w')
    ensures Inv(w')
  {
    hide PendingOk;
    var recent := ToSet(batch);
    WrittenContents(w, batch, w');
    DatabaseUnique(w.db);
    forall u, s: SequenceNumber | s >= w'.horizon ensures Read(Contents(w'.db), u, s) == Read(w'.written, u, s) {
      ReadUnderWrites(recent, Contents(w.db), u, s);
      ReadUnderWrites(recent, w.written, u, s);
    }
    if w.pending.Some? {
      WriteKeepsPending(w, batch, w', w.pending.value);
    }
  }

  lemma WrittenContents(w: World, batch: seq<Entry>, w': World)
    requires Inv(w) && Next(w, Write(batch), w')
    ensures Contents(w'.db) == Contents(w.db) + ToSet(batch)
    ensures forall e :: e in ToSet(batch) ==> w.last < e.key.sequence <= w'.last
    ensures Newer(ToSet(batch), w.written) && Newer(ToSet(batch), Contents(w.db)) && Unique(ToSet(batch))
    ensures DatabaseOk(w'.db) && Unique(w'.written) && SnapshotsOk(w')
  {
    hide PendingOk, VersionOk, VersionEntries, SameReads;
    var recent := ToSet(batch);
    assert forall e :: e in recent ==> w.last < e.key.sequence <= w'.last;
  }

  lemma WriteKeepsPending(w: World, batch: seq<Entry>, w': World, p: Pending)
    requires Next(w, Write(batch), w') && PendingOk(w, p) && SnapshotsOk(w)
    requires forall e :: e in ToSet(batch) ==> w.last < e.key.sequence <= w'.last
    ensures PendingOk(w', p)
  {
    hide DatabaseOk, CompactionOk, InputsAt;
    assert p.oldest <= w.last;
    assert RestOf(w'.db, p.c) == RestOf(w.db, p.c) + ToSet(batch);
  }

  // New writes decide a read they are visible to; otherwise they do not matter.
  lemma ReadUnderWrites(recent: set<Entry>, es: set<Entry>, u: UserKey, s: SequenceNumber)
    requires Unique(recent) && Unique(es) && Newer(recent, es)
    ensures Read(es + recent, u, s) == if ShowsNothing(recent, u, s) then Read(es, u, s) else Read(recent, u, s)
  {
    var first := ReadCases(recent, u, s);
    var rest := ReadCases(es, u, s);
    if first.Some? {
      assert IsNewest(es + recent, u, s, first.value);
      ReadNewest(es + recent, u, s, first.value);
    } else if rest.Some? {
      assert IsNewest(es + recent, u, s, rest.value);
      ReadNewest(es + recent, u, s, rest.value);
    } else {
      assert ShowsNothing(es + recent, u, s);
      var _ := ReadCases(es + recent, u, s);
    }
  }

  lemma RotateKeepsInv(w: World, w': World)
    requires Inv(w) && Next(w, Rotate, w')
    ensures Inv(w')
  {
    hide VersionOk, VersionEntries, SameReads, CompactionOk, InputsAt;
    assert Contents(w'.db) == Contents(w.db);
    if w.pending.Some? {
      assert RestOf(w'.db, w.pending.value.c) == RestOf(w.db, w.pending.value.c);
    }
  }

  lemma FlushKeepsInv(w: World, level: nat, meta: File, w': World)
    requires Inv(w) && Next(w, Flush(level, meta), w')
    ensures Inv(w')
  {
    hide DatabaseOk, SameReads, PendingOk, Contents, FileOk;
    FlushKeepsOk(w.db, level, meta, w'.db);
    if w.pending.Some? {
      FlushKeepsPending(w, level, meta, w', w.pending.value);
    }
  }

  // The inputs of a running compaction stay where they are, and what is flushed beside them is newer.
  lemma FlushKeepsPending(w: World, level: nat, meta: File, w': World, p: Pending)
    requires Inv(w) && PendingOk(w, p) && Next(w, Flush(level, meta), w')
    ensures PendingOk(w', p)
  {
    hide SameReads, CompactionOk, FileNewer, FileOk, VersionOk;
    var v, after := w.db.current, w'.db.current;
    AddedByEdit(v, level, meta, after);
    assert InputsAt(after, p.c) by {
      forall f, g | f in p.c.inputs0 && g in after[p.c.level] && g !in p.c.inputs0 ensures FileNewer(g, f) {
        assert FileAt(after, p.c.level, g) && FileAt(v, p.c.level, f);
        if g == meta {
          MemtableIsNewer(w.db, meta, p.c.level, f);
        }
      }
      assert forall f :: f in p.c.inputs0 ==> FileAt(v, p.c.level, f) && FileAt(after, p.c.level, f);
      assert forall f :: f in p.c.inputs1 ==> FileAt(v, p.c.level + 1, f) && FileAt(after, p.c.level + 1, f);
    }
    FlushKeepsRest(w.db, p.c, level, meta, w'.db);
  }

  lemma FlushKeepsRest(db: Database, c: Compaction, level: nat, meta: File, db': Database)
    requires InputsAt(db.current, c) && meta.contents == db.imm && FreshNumber(db.current, meta.number)
    requires OneFileAdded(db.current, level, meta, db'.current) && db'.mem == db.mem && db'.imm == []
    ensures RestOf(db', c) == RestOf(db, c)
  {
    var v, after := db.current, db'.current;
    assert !IsInput(c, level, meta) by {
      assert forall l, f :: IsInput(c, l, f) ==> FileAt(v, l, f);
    }
    forall e ensures e in RestOf(db', c) <==> e in RestOf(db, c) {
      InVersionIff(v, e);
      InVersionIff(after, e);
      if StaysInVersion(after, c, e) {
        var l, f :| FileAt(after, l, f) && !IsInput(c, l, f) && e in f.contents;
        assert f == meta || FileAt(v, l, f);
      }
      if StaysInVersion(v, c, e) {
        var l, f :| FileAt(v, l, f) && !IsInput(c, l, f) && e in f.contents;
        assert FileAt(after, l, f);
      }
      if e in db.imm {
        assert FileAt(after, level, meta);
      }
    }
  }

  // A flush to any other level leaves the output level as it was: only a flush there can make an install unsafe.
  lemma FlushElsewhereIsClear(w: World, level: nat, meta: File, w': World, outputs: seq<File>)
    requires Next(w, Flush(level, meta), w') && w.pending.Some? && level != w.pending.value.c.level + 1
    ensures FlushesClear(w.pending.value, w'.db.current, outputs) <==> FlushesClear(w.pending.value, w.db.current, outputs)
  {
    AddedByEdit(w.db.current, level, meta, w'.db.current);
  }

  // In particular nothing is in the way right after the inputs were picked.
  lemma PickedIsClear(w: World, c: Compaction, w': World, outputs: seq<File>)
    requires Next(w, Pick(c), w')
    ensures FlushesClear(w'.pending.value, w'.db.current, outputs)
  {
  }

  lemma AcquireKeepsInv(w: World, w': World)
    requires Inv(w) && Next(w, Acquire, w')
    ensures Inv(w')
  {
    hide DatabaseOk, SameReads, SameRest, CompactionOk, InputsAt, Contents;
  }

  lemma ReleaseKeepsInv(w: World, i: nat, w': World)
    requires Inv(w) && Next(w, Release(i), w')
    ensures Inv(w')
  {
    hide DatabaseOk, SameReads, SameRest, CompactionOk, InputsAt, Contents;
    assert forall k :: 0 <= k < |w'.held| ==> w'.held[k] == w.held[if k < i then k else k + 1];
    assert Smallest(w.held, w.last) <= Smallest(w'.held, w'.last);
  }

  lemma MoveKeepsInv(w: World, c: Compaction, w': World)
    requires Inv(w) && Next(w, Move(c), w')
    ensures Inv(w')
  {
    hide DatabaseOk, SameReads, Contents;
    MoveKeepsContents(w.db, c, w'.db);
    forall l, f | FileAt(w'.db.current, l, f) ensures f.number < w'.next {
      assert FileAt(w.db.current, l, f) || f in c.inputs0;
      assert f in c.inputs0 ==> FileAt(w.db.current, c.level, f);
    }
  }

  lemma PickKeepsInv(w: World, c: Compaction, w': World)
    requires Inv(w) && Next(w, Pick(c), w')
    ensures Inv(w')
  {
    hide DatabaseOk, SameReads, Contents, CompactionOk, InputsAt, RestOf;
    PickedInputs(w.db.current, c);
  }

  lemma OpenKeepsInv(w: World, w': World)
    requires Inv(w) && Next(w, OpenOutput, w')
    ensures Inv(w')
  {
    hide DatabaseOk, SameReads, Contents, CompactionOk, InputsAt, SameRest;
  }

  lemma AbandonKeepsInv(w: World, w': World)
    requires Inv(w) && Next(w, Abandon, w')
    ensures Inv(w')
  {
    hide DatabaseOk, SameReads, Contents;
  }

  // --- The install ---

  lemma WorkFits(w: World, p: Pending, outputs: seq<File>)
    requires PendingOk(w, p) && Worked(p, outputs)
    ensures OutputsFit(w.db.current, p.c, outputs)
  {
    hide DatabaseOk, CompactionOk, InputsAt, SameRest, InputEntries;
    forall f, e | f in outputs && e in f.contents ensures FromInputs(p.c, e) {
      var i :| 0 <= i < |outputs| && outputs[i] == f;
      assert e in Entries(outputs);
      InputEntriesIff(p.c, e);
    }
  }

  // The new guard is all that is missing: files that were there when the inputs were picked are not straddled.
  lemma ClearIffNoneStraddles(w: World, p: Pending, outputs: seq<File>)
    requires PendingOk(w, p) && Worked(p, outputs)
    ensures FlushesClear(p, w.db.current, outputs) <==> NoneStraddles(w.db.current, p.c, outputs)
  {
    hide SameRest, InputEntries, FileOk, LeavesNewer, VersionOk;
    WorkFits(w, p, outputs);
    var v, from, l := w.db.current, p.picked.current, p.c.level + 1;
    PickedNoneStraddles(from, p.c, outputs);
    assert forall g :: IsInput(p.c, l, g) ==> FileAt(from, l, g);
    assert forall f, g :: f in outputs && FileAt(from, l, g) && !IsInput(p.c, l, g) ==> FileBefore(f, g) || FileBefore(g, f);
  }

  lemma InstallKeepsInvIff(w: World, outputs: seq<File>, w': World)
    requires Inv(w) && Next(w, Install(outputs), w')
    ensures Inv(w') <==> Safe(w, Install(outputs))
  {
    hide DatabaseOk, Contents, CompactionOk, InputsAt, SameRest, Compacted, Uncovers, NoneStraddles, FlushesClear;
    hide OutputsFit, InputEntries, Entries, Disjoint, FilesOk;
    var p := w.pending.value;
    WorkFits(w, p, outputs);
    ClearIffNoneStraddles(w, p, outputs);
    InstallCorrectIff(p.picked, w.db, p.c, p.oldest, outputs, w'.db);
    InstalledNumbers(w, p, outputs, w');
    assert SameReads(w.written, Contents(w'.db), p.oldest) <==> SameReads(Contents(w.db), Contents(w'.db), p.oldest) by {
      ReadsFollow(w.written, Contents(w.db), Contents(w'.db), w.horizon, p.oldest);
    }
  }

  lemma ReadsFollow(written: set<Entry>, before: set<Entry>, after: set<Entry>, horizon: SequenceNumber,
                    oldest: SequenceNumber)
    requires SameReads(written, before, horizon) && horizon <= oldest
    ensures SameReads(written, after, oldest) <==> SameReads(before, after, oldest)
  {
    hide Read;
    assert forall u, s: SequenceNumber :: s >= oldest ==> Read(before, u, s) == Read(written, u, s);
  }

  lemma InstalledNumbers(w: World, p: Pending, outputs: seq<File>, w': World)
    requires PendingOk(w, p) && FreshNumber(w.db.current, w.next) && Worked(p, outputs)
    requires Replaced(w.db.current, p.c, outputs, w'.db.current) && w'.next == w.next
    ensures FreshNumber(w'.db.current, w'.next)
  {
    hide DatabaseOk, CompactionOk, InputsAt, SameRest, FilesOk, Disjoint, InputEntries, Compacted;
    forall l, f | FileAt(w'.db.current, l, f) ensures f.number < w'.next {
      assert FileAt(w.db.current, l, f) || f in outputs;
    }
  }
}
