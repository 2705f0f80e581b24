/** Versions of the file set and the layered read (db/version_set.cc 281-400, db/db_impl.cc 1110-1155,
    db/memtable.cc 101-135). */
module Versions {
  import opened InternalKeys
  import opened Cursors
  import opened Files
  import opened Picking
  import opened VersionBuilder

  // Level-0 files may overlap; the one with the larger number holds the newer entries.
  ghost predicate Level0Ok(files: seq<File>) {
    forall f, g :: f in files && g in files && f.number > g.number ==> FileNewer(f, g)
  }

  ghost predicate DistinctNumbers(files: seq<File>) {
    forall f, g :: f in files && g in files && f.number == g.number ==> f == g
  }

  // Shallower levels hold the newer entries of a user key.
  ghost predicate Recency(v: Levels) {
    forall l, m, f, g :: 0 <= l < m < |v| && f in v[l] && g in v[m] ==> FileNewer(f, g)
  }

  predicate FileAt(v: Levels, l: int, f: File) {
    0 <= l < |v| && f in v[l]
  }

  // A file number names one file.
  ghost predicate UniqueNumbers(v: Levels) {
    forall l, m, f, g :: FileAt(v, l, f) && FileAt(v, m, g) && f.number == g.number ==> l == m && f == g
  }

  ghost predicate VersionOk(v: Levels) {
    && LevelsOk(v)
    && UniqueNumbers(v)
    && (forall l :: 0 <= l < NUM_LEVELS ==> Ascending(v[l]))
    && Level0Ok(v[0])
    && Recency(v)
  }

  ghost predicate InVersion(v: Levels, e: Entry) {
    exists l, f :: 0 <= l < |v| && f in v[l] && e in f.contents
  }

  ghost function VersionEntries(v: Levels): set<Entry> {
    set l, i, e | 0 <= l < |v| && 0 <= i < |v[l]| && e in v[l][i].contents :: e
  }

  lemma InVersionIff(v: Levels, e: Entry)
    ensures e in VersionEntries(v) <==> InVersion(v, e)
  {
    if InVersion(v, e) {
      var l, f :| 0 <= l < |v| && f in v[l] && e in f.contents;
      var i :| 0 <= i < |v[l]| && v[l][i] == f;
    }
  }

  // --- Searching one sorted run ---

  // What one sorted run says about a user key at a snapshot.
  datatype Lookup = Missing | Hit(entry: Entry)

  function LookupRun(run: seq<Entry>, u: UserKey, s: SequenceNumber): Lookup {
    var i := SeekPos(run, SeekKey(u, s));
    if i < |run| && run[i].key.user == u then Hit(run[i]) else Missing
  }

  // Seeking to (u, s) lands on the newest visible entry of u, if the run has one.
  lemma LookupRunIsNewest(run: seq<Entry>, u: UserKey, s: SequenceNumber)
    requires Sorted(run)
    ensures LookupRun(run, u, s).Missing? ==> ShowsNothing(ToSet(run), u, s)
    ensures LookupRun(run, u, s).Hit? ==> IsNewest(ToSet(run), u, s, LookupRun(run, u, s).entry)
  {
    var i := SeekPos(run, SeekKey(u, s));
    forall j | 0 <= j < |run| && Shows(run[j], u, s) ensures i <= j {}
    if i < |run| {
      assert run[i].key.user == u ==> run[i].key.sequence <= s;
      forall j | i <= j < |run| && run[j].key.user == u
        ensures run[i].key.user == u && run[j].key.sequence <= run[i].key.sequence
      {
        if i < j { assert Precedes(run[i].key, run[j].key); }
      }
    }
  }

  // --- Version::Get: level 0 newest file first, then one file per level ---

  ghost predicate LevelSilent(files: seq<File>, u: UserKey, s: SequenceNumber) {
    forall f, e :: f in files && e in f.contents ==> !Shows(e, u, s)
  }

  // e is the newest visible entry of its level.
  ghost predicate LevelNewest(files: seq<File>, u: UserKey, s: SequenceNumber, e: Entry) {
    && Shows(e, u, s)
    && (exists f :: f in files && e in f.contents)
    && forall g, e' :: g in files && e' in g.contents && Shows(e', u, s) ==> e'.key.sequence <= e.key.sequence
  }

  // The first level with a visible entry decides the read.
  lemma FirstLevelDecides(v: Levels, l: nat, u: UserKey, s: SequenceNumber, e: Entry)
    requires Recency(v) && l < |v| && LevelNewest(v[l], u, s, e)
    requires forall m :: 0 <= m < l ==> LevelSilent(v[m], u, s)
    ensures IsNewest(VersionEntries(v), u, s, e)
  {
    var f :| f in v[l] && e in f.contents;
    InVersionIff(v, e);
    forall e' | e' in VersionEntries(v) && Shows(e', u, s) ensures e'.key.sequence <= e.key.sequence {
      InVersionIff(v, e');
      var m, g :| 0 <= m < |v| && g in v[m] && e' in g.contents;
      if m > l {
        assert FileNewer(f, g);
      }
    }
  }

  function InsertNewest(f: File, files: seq<File>): seq<File> {
    if files == [] || f.number > files[0].number then [f] + files
    else [files[0]] + InsertNewest(f, files[1..])
  }

  // std::sort with NewestFirst
  function SortNewestFirst(files: seq<File>): seq<File> {
    if files == [] then [] else InsertNewest(files[0], SortNewestFirst(files[1..]))
  }

  ghost predicate NewestFirst(files: seq<File>) {
    forall i, j :: 0 <= i < j < |files| ==> files[i].number >= files[j].number
  }

  lemma {:induction false} InsertNewestSorts(f: File, files: seq<File>)
    requires NewestFirst(files)
    ensures NewestFirst(InsertNewest(f, files))
    ensures forall g :: g in InsertNewest(f, files) <==> g == f || g in files
  {
    if files != [] && f.number <= files[0].number {
      InsertNewestSorts(f, files[1..]);
      assert files == [files[0]] + files[1..];
      var rest := InsertNewest(f, files[1..]);
      assert forall g :: g in rest ==> g.number <= files[0].number;
      assert forall i :: 0 <= i < |rest| ==> rest[i] in rest;
    }
  }

  lemma {:induction false} SortNewestFirstSorts(files: seq<File>)
    ensures NewestFirst(SortNewestFirst(files))
    ensures forall g :: g in SortNewestFirst(files) <==> g in files
  {
    if files != [] {
      SortNewestFirstSorts(files[1..]);
      InsertNewestSorts(files[0], SortNewestFirst(files[1..]));
      assert files == [files[0]] + files[1..];
    }
  }

  method CoveringNewestFirst(files: seq<File>, u: UserKey) returns (order: seq<File>)
    ensures NewestFirst(order)
    ensures forall f :: f in order <==> f in files && Covers(f, u)
  {
    var tmp := [];
    for i := 0 to |files|
      invariant forall f :: f in tmp <==> f in files[..i] && Covers(f, u)
    {
      if Covers(files[i], u) {
        tmp := tmp + [files[i]];
      }
      assert files[..i + 1] == files[..i] + [files[i]];
    }
    assert files[..|files|] == files;
    SortNewestFirstSorts(tmp);
    order := SortNewestFirst(tmp);
  }

  method SearchLevel0(files: seq<File>, u: UserKey, s: SequenceNumber) returns (r: Lookup)
    requires FilesOk(files) && Level0Ok(files) && DistinctNumbers(files)
    ensures r.Missing? ==> LevelSilent(files, u, s)
    ensures r.Hit? ==> LevelNewest(files, u, s, r.entry)
  {
    var order := CoveringNewestFirst(files, u);
    for i := 0 to |order|
      invariant forall j :: 0 <= j < i ==> ShowsNothing(ToSet(order[j].contents), u, s)
    {
      r := LookupRun(order[i].contents, u, s);
      assert order[i] in files;
      LookupRunIsNewest(order[i].contents, u, s);
      if r.Hit? {
        FirstFileDecides(files, order, i, u, s, r.entry);
        return;
      }
    }
    forall g, e | g in files && e in g.contents ensures !Shows(e, u, s) {
      assert e in ToSet(g.contents);
      if e.key.user == u {
        CoveringFile(files, order, g, e, u);
      }
    }
    r := Missing;
  }

  // The newest level-0 file with a visible entry decides for the level.
  lemma FirstFileDecides(files: seq<File>, order: seq<File>, i: nat, u: UserKey, s: SequenceNumber, e: Entry)
    requires FilesOk(files) && Level0Ok(files) && DistinctNumbers(files) && NewestFirst(order) && i < |order|
    requires forall f :: f in order <==> f in files && Covers(f, u)
    requires forall j :: 0 <= j < i ==> ShowsNothing(ToSet(order[j].contents), u, s)
    requires IsNewest(ToSet(order[i].contents), u, s, e)
    ensures LevelNewest(files, u, s, e)
  {
    var f := order[i];
    assert f in files && e in f.contents;
    forall g, e' | g in files && e' in g.contents && Shows(e', u, s) ensures e'.key.sequence <= e.key.sequence {
      CoveringFile(files, order, g, e', u);
      var j :| 0 <= j < |order| && order[j] == g;
      assert e' in ToSet(g.contents);
      if g != f {
        assert FileNewer(f, g);
      }
    }
  }

  lemma CoveringFile(files: seq<File>, order: seq<File>, g: File, e: Entry, u: UserKey)
    requires FilesOk(files) && g in files && e in g.contents && e.key.user == u
    requires forall f :: f in files && Covers(f, u) ==> f in order
    ensures g in order
  {
    FileOrder(g, e);
  }

  // What the search of a level >= 1 returns on any list of files.
  function LookupLevel(files: seq<File>, u: UserKey, s: SequenceNumber): Lookup {
    var index := Halve(files, SeekKey(u, s), 0, |files|);
    if index < |files| && u >= files[index].smallest.user then LookupRun(files[index].contents, u, s) else Missing
  }

  // A level >= 1: the single file that FindFile picks decides for the whole level, even when the versions of a
  // user key are split across adjacent files.
  method SearchLevel(files: seq<File>, u: UserKey, s: SequenceNumber) returns (r: Lookup)
    ensures r == LookupLevel(files, u, s)
    ensures FilesOk(files) && Disjoint(files) && r.Missing? ==> LevelSilent(files, u, s)
    ensures FilesOk(files) && Disjoint(files) && r.Hit? ==> LevelNewest(files, u, s, r.entry)
  {
    var index := FindFile(files, SeekKey(u, s));
    if index < |files| && u >= files[index].smallest.user {
      r := LookupRun(files[index].contents, u, s);
    } else {
      r := Missing;
    }
    if FilesOk(files) && Disjoint(files) {
      FoundFileDecides(files, index, u, s);
    }
  }

  lemma FoundFileDecides(files: seq<File>, index: nat, u: UserKey, s: SequenceNumber)
    requires FilesOk(files) && Disjoint(files) && index <= |files|
    requires forall i :: 0 <= i < index ==> Less(files[i].largest, SeekKey(u, s))
    requires index < |files| ==> !Less(files[index].largest, SeekKey(u, s))
    ensures index < |files| && u >= files[index].smallest.user && LookupRun(files[index].contents, u, s).Hit?
            ==> LevelNewest(files, u, s, LookupRun(files[index].contents, u, s).entry)
    ensures !(index < |files| && u >= files[index].smallest.user && LookupRun(files[index].contents, u, s).Hit?)
            ==> LevelSilent(files, u, s)
  {
    if index < |files| {
      LookupRunIsNewest(files[index].contents, u, s);
      FileOrder(files[index], files[index].contents[0]);
    }
    forall g, e | g in files && e in g.contents && Shows(e, u, s)
      ensures index < |files| && u >= files[index].smallest.user
      ensures LookupRun(files[index].contents, u, s).Hit?
      ensures e.key.sequence <= LookupRun(files[index].contents, u, s).entry.key.sequence
    {
      var i :| 0 <= i < |files| && files[i] == g;
      FileOrder(g, e);
      assert i >= index;
      VisibleFileHits(files, index, i, u, s, e);
    }
  }

  lemma VisibleFileHits(files: seq<File>, index: nat, i: nat, u: UserKey, s: SequenceNumber, e: Entry)
    requires FilesOk(files) && Disjoint(files) && index <= i < |files| && e in files[i].contents && Shows(e, u, s)
    requires !Less(files[index].largest, SeekKey(u, s))
    ensures u >= files[index].smallest.user
    ensures LookupRun(files[index].contents, u, s).Hit?
    ensures e.key.sequence <= LookupRun(files[index].contents, u, s).entry.key.sequence
  {
    var run := files[index].contents;
    LookupRunIsNewest(run, u, s);
    FileOrder(files[i], e);
    if i == index {
      assert e in ToSet(run);
    } else {
      // The found file ends at or after (u, s) and before e, so it ends with a visible entry of u.
      var last := run[|run| - 1];
      assert Precedes(files[index].largest, e.key);
      assert Shows(last, u, s) && last in ToSet(run);
      FileOrder(files[index], last);
    }
  }

  method VersionGet(v: Levels, u: UserKey, s: SequenceNumber) returns (r: Lookup)
    requires VersionOk(v)
    ensures r.Missing? ==> ShowsNothing(VersionEntries(v), u, s)
    ensures r.Hit? ==> IsNewest(VersionEntries(v), u, s, r.entry)
  {
    assert forall f :: f in v[0] ==> FileAt(v, 0, f);
    r := SearchLevel0(v[0], u, s);
    if r.Hit? {
      FirstLevelDecides(v, 0, u, s, r.entry);
      return;
    }
    for level := 1 to NUM_LEVELS
      invariant r.Missing?
      invariant forall m :: 0 <= m < level ==> LevelSilent(v[m], u, s)
    {
      r := SearchLevel(v[level], u, s);
      if r.Hit? {
        FirstLevelDecides(v, level, u, s, r.entry);
        return;
      }
    }
    forall e | e in VersionEntries(v) ensures !Shows(e, u, s) {
      InVersionIff(v, e);
    }
  }

  // --- DBImpl::Get: memtable, immutable memtable, then the current version ---

  datatype Database = Database(mem: seq<Entry>, imm: seq<Entry>, current: Levels)

  ghost predicate DatabaseOk(db: Database) {
    && Sorted(db.mem) && Sorted(db.imm) && VersionOk(db.current)
    && Newer(ToSet(db.mem), ToSet(db.imm))
    && Newer(ToSet(db.mem), VersionEntries(db.current))
    && Newer(ToSet(db.imm), VersionEntries(db.current))
  }

  ghost function Contents(db: Database): set<Entry> {
    ToSet(db.mem) + ToSet(db.imm) + VersionEntries(db.current)
  }

  // The layered lookup finds the newest visible entry among all entries of the database.
  method Find(db: Database, u: UserKey, s: SequenceNumber) returns (r: Lookup)
    requires DatabaseOk(db)
    ensures r.Missing? ==> ShowsNothing(Contents(db), u, s)
    ensures r.Hit? ==> IsNewest(Contents(db), u, s, r.entry)
  {
    LookupRunIsNewest(db.mem, u, s);
    LookupRunIsNewest(db.imm, u, s);
    r := LookupRun(db.mem, u, s);
    if r.Missing? {
      r := LookupRun(db.imm, u, s);
      if r.Missing? {
        r := VersionGet(db.current, u, s);
      }
    }
  }

  method Get(db: Database, u: UserKey, s: SequenceNumber) returns (value: Option<Bytes>)
    requires DatabaseOk(db)
    ensures value == Read(Contents(db), u, s)
  {
    DatabaseUnique(db);
    var r := Find(db, u, s);
    match r {
      case Missing =>
        value := None;
      case Hit(e) =>
        ReadNewest(Contents(db), u, s, e);
        value := if e.key.kind.Value? then Some(e.value) else None;
    }
  }

  lemma VersionUnique(v: Levels)
    requires VersionOk(v)
    ensures Unique(VersionEntries(v))
  {
    forall e, e' | e in VersionEntries(v) && e' in VersionEntries(v) && e.key.user == e'.key.user
                   && e.key.sequence == e'.key.sequence
      ensures e == e'
    {
      InVersionIff(v, e);
      InVersionIff(v, e');
      var l, f :| 0 <= l < |v| && f in v[l] && e in f.contents;
      var m, g :| 0 <= m < |v| && g in v[m] && e' in g.contents;
      SharedSequence(v, l, f, e, m, g, e');
    }
  }

  lemma SharedSequence(v: Levels, l: nat, f: File, e: Entry, m: nat, g: File, e': Entry)
    requires VersionOk(v) && l < |v| && m < |v| && f in v[l] && g in v[m] && e in f.contents && e' in g.contents
    requires e.key.user == e'.key.user && e.key.sequence == e'.key.sequence
    ensures e == e'
  {
    assert FileAt(v, l, f) && FileAt(v, m, g);
    assert f != g && (l != m || l == 0) ==> FileNewer(f, g) || FileNewer(g, f);
    if f == g {
      SortedIsUnique(f.contents);
      assert e in ToSet(f.contents) && e' in ToSet(f.contents);
    } else if l == m > 0 {
      DisjointFiles(v[l], f, g);
      FileOrder(f, e);
      FileOrder(g, e');
      assert false;
    }
  }

  lemma DatabaseUnique(db: Database)
    requires DatabaseOk(db)
    ensures Unique(Contents(db))
  {
    SortedIsUnique(db.mem);
    SortedIsUnique(db.imm);
    VersionUnique(db.current);
  }
}
