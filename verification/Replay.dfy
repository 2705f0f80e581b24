/** Recovery from the log (db/db_impl.cc 427-462, with paranoid_checks off): the entries of every logged batch are
    inserted into memtables, which are written out whenever they grow too large. */
module Replay {
  import opened InternalKeys
  import opened Coding
  import opened Log
  import Cursors
  import opened WriteBatches

  // What MemTable::Add is given.
  datatype Row = Row(key: Bytes, sequence: nat, kind: ValueType, value: Bytes)

  function OpRow(op: Op, sequence: nat): Row {
    match op
    case Put(key, value) => Row(key, sequence, Value, value)
    case Delete(key) => Row(key, sequence, Deletion, [])
  }

  // The rows of a batch whose first sequence number is `sequence`.
  function Rows(sequence: nat, ops: seq<Op>): (rows: seq<Row>)
    ensures |rows| == |ops|
    ensures forall i :: 0 <= i < |ops| ==> rows[i] == OpRow(ops[i], sequence + i)
  {
    seq(|ops|, i requires 0 <= i < |ops| => OpRow(ops[i], sequence + i))
  }

  function RecordRows(record: Bytes): seq<Row> {
    if |record| < BATCH_HEADER then [] else Rows(DecodeFixed(record[..8]), IterateRep(record).0)
  }

  function ReplayRows(records: seq<Bytes>): seq<Row> {
    if records == [] then [] else ReplayRows(records[..|records| - 1]) + RecordRows(records[|records| - 1])
  }

  // The last sequence number a record accounts for.
  function LastSequence(record: Bytes): nat {
    if |record| < BATCH_HEADER then 0 else Last(DecodeFixed(record[..8]), DecodeFixed(record[8..12]))
  }

  // In 64-bit arithmetic: an empty batch at sequence 0 gives the largest word.
  function Last(sequence: nat, count: nat): nat {
    (sequence + count + TWO64 - 1) % TWO64
  }

  function MaxSequence(records: seq<Bytes>, start: nat): nat {
    if records == [] then start
    else
      var m := MaxSequence(records[..|records| - 1], start);
      var last := LastSequence(records[|records| - 1]);
      if last > m then last else m
  }

  // WriteBatchInternal::InsertInto with a MemTableInserter.
  method InsertInto(record: Bytes, mem: seq<Row>) returns (mem': seq<Row>)
    requires |record| >= BATCH_HEADER
    ensures mem' == mem + RecordRows(record)
  {
    hide IterateRep, DecodeFixed;
    var batch := new WriteBatch();
    batch.rep := record;
    var handled, _ := batch.Iterate();
    mem' := InsertOps(DecodeFixed(record[..8]), handled, mem);
  }

  // The handler: one row for each operation, under consecutive sequence numbers.
  method InsertOps(first: nat, ops: seq<Op>, mem: seq<Row>) returns (mem': seq<Row>)
    ensures mem' == mem + Rows(first, ops)
  {
    ghost var rows := Rows(first, ops);
    mem' := mem;
    var sequence := first;
    for i := 0 to |ops|
      invariant sequence == first + i && mem' == mem + rows[..i]
    {
      mem' := mem' + [OpRow(ops[i], sequence)];
      sequence := sequence + 1;
      assert rows[..i + 1] == rows[..i] + [rows[i]];
    }
    assert rows[..|ops|] == rows;
  }

  // However the rows are split into tables, they are the rows of the records in order.
  method RecoverLogFile(disk: Bytes, maxSequence: nat) returns (tables: seq<seq<Row>>, maxSequence': nat)
    ensures Cursors.Flat(tables) == ReplayRows(ReadAll(disk, 0).0)
    ensures maxSequence' == MaxSequence(ReadAll(disk, 0).0, maxSequence)
  {
    hide ReadAll, LastSequence, Last, RecordRows, DecodeFixed;
    var records, _ := ReadLog(disk);
    tables, maxSequence' := [], maxSequence;
    var mem: seq<Row> := [];
    for i := 0 to |records|
      invariant Cursors.Flat(tables) + mem == ReplayRows(records[..i])
      invariant maxSequence' == MaxSequence(records[..i], maxSequence)
    {
      var record := records[i];
      assert records[..i + 1][..i] == records[..i];
      ghost var before := mem;
      if |record| >= BATCH_HEADER {
        mem := InsertInto(record, mem);
        assert Cursors.Flat(tables) + mem == Cursors.Flat(tables) + before + RecordRows(record);
        var last := Last(DecodeFixed(record[..8]), DecodeFixed(record[8..12]));
        LastOf(record);
        if last > maxSequence' {
          maxSequence' := last;
        }
        var tooLarge := *;
        if tooLarge {
          ghost var written := tables;
          tables := tables + [mem];
          assert tables[..|tables| - 1] == written;
          mem := [];
        }
      } else {
        LastOf(record);
        assert Cursors.Flat(tables) + mem == Cursors.Flat(tables) + mem + [];
      }
    }
    assert records[..|records|] == records;
    ghost var written := tables;
    tables := tables + [mem];
    assert tables[..|tables| - 1] == written;
  }

  lemma LastOf(record: Bytes)
    ensures LastSequence(record)
            == if |record| < BATCH_HEADER then 0 else Last(DecodeFixed(record[..8]), DecodeFixed(record[8..12]))
    ensures |record| < BATCH_HEADER ==> RecordRows(record) == []
  {
  }

  // --- Replay reproduces the live inserts ---

  datatype Batch = Batch(sequence: Word64, ops: seq<Op>)

  ghost predicate BatchesOk(batches: seq<Batch>) {
    forall i :: 0 <= i < |batches| ==> OpsOk(batches[i].ops)
  }

  function Reps(batches: seq<Batch>): (records: seq<Bytes>)
    ensures |records| == |batches|
  {
    seq(|batches|, i requires 0 <= i < |batches| => Rep(batches[i].sequence, batches[i].ops))
  }

  // The rows that the writers insert when they log the batches.
  function LiveRows(batches: seq<Batch>): seq<Row> {
    if batches == [] then []
    else
      var b := batches[|batches| - 1];
      LiveRows(batches[..|batches| - 1]) + Rows(b.sequence, b.ops)
  }

  lemma BatchRows(b: Batch)
    requires OpsOk(b.ops)
    ensures RecordRows(Rep(b.sequence, b.ops)) == Rows(b.sequence, b.ops)
  {
    RepFields(b.sequence, b.ops);
    IterateInverts(b.sequence, b.ops);
  }

  lemma {:induction false} ReplayIsLive(batches: seq<Batch>)
    requires BatchesOk(batches)
    ensures ReplayRows(Reps(batches)) == LiveRows(batches)
  {
    if batches != [] {
      var n := |batches| - 1;
      ReplayIsLive(batches[..n]);
      assert Reps(batches)[..n] == Reps(batches[..n]);
      BatchRows(batches[n]);
    }
  }

  // Replaying any truncated log reproduces the live rows of exactly the batches that are whole on disk.
  lemma RecoveryReproduces(batches: seq<Batch>, disk: Bytes, k: nat)
    requires BatchesOk(batches) && disk <= WriteAll(Reps(batches)) && WholeRecords(Reps(batches), |disk|, k)
    ensures ReplayRows(ReadAll(disk, 0).0) == LiveRows(batches[..k])
  {
    hide ReadAll, RecordRows, WriteAll, Rep;
    TruncatedRoundTrip(Reps(batches), disk, k);
    assert Reps(batches)[..k] == Reps(batches[..k]);
    ReplayIsLive(batches[..k]);
  }

  // --- The sequence number recovery goes on from ---

  // m is the largest of start and the sequence numbers of the rows.
  ghost predicate IsLargest(rows: seq<Row>, start: nat, m: nat) {
    && start <= m && (forall i :: 0 <= i < |rows| ==> rows[i].sequence <= m)
    && (m == start || exists i :: 0 <= i < |rows| && rows[i].sequence == m)
  }

  // Batches as Write logs them: not empty, counted in 32 bits, and within the sequence numbers of 64 bits.
  ghost predicate Countable(b: Batch) {
    OpsOk(b.ops) && 0 < |b.ops| < TWO32 && b.sequence + |b.ops| <= TWO64
  }

  lemma BatchLast(b: Batch)
    requires OpsOk(b.ops) && |b.ops| < TWO32 && 0 < b.sequence + |b.ops| <= TWO64
    ensures LastSequence(Rep(b.sequence, b.ops)) == b.sequence + |b.ops| - 1
  {
    hide Rep, DecodeFixed, EncodeFixed64, RecordRows, LastSequence, Last, EncodeOps, CountField, OpsOk;
    var rep := Rep(b.sequence, b.ops);
    RepFields(b.sequence, b.ops);
    RepLength(b.sequence, b.ops);
    LastOf(rep);
    LastOfRun(b.sequence, |b.ops|);
  }

  lemma LastOfRun(sequence: nat, count: nat)
    requires 0 < sequence + count <= TWO64
    ensures Last(sequence, count) == sequence + count - 1
  {
  }

  lemma {:induction false} MaxIsLargest(batches: seq<Batch>, start: nat)
    requires forall i :: 0 <= i < |batches| ==> Countable(batches[i])
    ensures IsLargest(LiveRows(batches), start, MaxSequence(Reps(batches), start))
  {
    hide LastSequence, Rep;
    if batches != [] {
      var n := |batches| - 1;
      var b := batches[n];
      MaxIsLargest(batches[..n], start);
      assert Reps(batches)[..n] == Reps(batches[..n]);
      BatchLast(b);
      LargestMore(LiveRows(batches[..n]), b, start, MaxSequence(Reps(batches[..n]), start));
    }
  }

  lemma LargestMore(rows: seq<Row>, b: Batch, start: nat, m: nat)
    requires IsLargest(rows, start, m) && b.ops != []
    ensures var last := b.sequence + |b.ops| - 1;
            IsLargest(rows + Rows(b.sequence, b.ops), start, if last > m then last else m)
  {
    var all, n := rows + Rows(b.sequence, b.ops), |b.ops| - 1;
    assert all[|rows| + n].sequence == b.sequence + n;
    if m != start {
      var i :| 0 <= i < |rows| && rows[i].sequence == m;
      assert all[i].sequence == m;
    }
  }

  // Opening a log of any batches, cut anywhere: the tables hold the rows of the whole batches, and writing goes on after
  // the largest sequence number among them.
  method RecoverBatches(disk: Bytes, maxSequence: nat, ghost batches: seq<Batch>, ghost k: nat)
    returns (tables: seq<seq<Row>>, maxSequence': nat)
    requires (forall i :: 0 <= i < |batches| ==> Countable(batches[i]))
    requires disk <= WriteAll(Reps(batches)) && WholeRecords(Reps(batches), |disk|, k)
    ensures k <= |batches| && Cursors.Flat(tables) == LiveRows(batches[..k])
    ensures IsLargest(Cursors.Flat(tables), maxSequence, maxSequence')
  {
    hide ReadAll, WriteAll, ReplayRows, LiveRows, MaxSequence, Rep, IsLargest;
    tables, maxSequence' := RecoverLogFile(disk, maxSequence);
    RecoveryReproduces(batches, disk, k);
    TruncatedRoundTrip(Reps(batches), disk, k);
    assert Reps(batches)[..k] == Reps(batches[..k]);
    MaxIsLargest(batches[..k], maxSequence);
  }

  // --- What the rows mean ---

  // The operations carried out one after the other on an empty map.
  function Apply(ops: seq<Op>): map<Bytes, Bytes> {
    if ops == [] then map[]
    else
      var before := Apply(ops[..|ops| - 1]);
      match ops[|ops| - 1]
      case Put(key, value) => before[key := value]
      case Delete(key) => before - {key}
  }

  // No row of the same key has a larger sequence number.
  ghost predicate Newest(rows: seq<Row>, r: Row) {
    r in rows && forall q :: q in rows && q.key == r.key ==> q.sequence <= r.sequence
  }

  // Reading the newest row of every key gives the map.
  ghost predicate ReadAs(rows: seq<Row>, m: map<Bytes, Bytes>) {
    && (forall r :: Newest(rows, r) ==> if r.kind.Value? then r.key in m && m[r.key] == r.value else r.key !in m)
    && (forall key :: key in m ==> exists r :: Newest(rows, r) && r.key == key)
  }

  lemma {:induction false} RowsReadAs(sequence: nat, ops: seq<Op>)
    ensures ReadAs(Rows(sequence, ops), Apply(ops))
  {
    if ops != [] {
      var n := |ops| - 1;
      var rows, before := Rows(sequence, ops), Rows(sequence, ops[..n]);
      RowsReadAs(sequence, ops[..n]);
      assert rows == before + [rows[n]];
      forall r | r in before ensures r.sequence < rows[n].sequence {
        var i :| 0 <= i < n && before[i] == r;
      }
      OneRowMore(before, rows[n], Apply(ops[..n]), Apply(ops));
    }
  }

  lemma OneRowMore(rows: seq<Row>, last: Row, m: map<Bytes, Bytes>, m': map<Bytes, Bytes>)
    requires ReadAs(rows, m) && forall r :: r in rows ==> r.sequence < last.sequence
    requires m' == if last.kind.Value? then m[last.key := last.value] else m - {last.key}
    ensures ReadAs(rows + [last], m')
  {
    var more := rows + [last];
    assert Newest(more, last);
    forall r: Row | r.key != last.key ensures Newest(more, r) <==> Newest(rows, r) {
    }
    forall r | Newest(more, r) ensures if r.kind.Value? then r.key in m' && m'[r.key] == r.value else r.key !in m' {
      if r.key == last.key {
        assert last in more && r == last;
      }
    }
    forall key | key in m' ensures exists r :: Newest(more, r) && r.key == key {
      if key != last.key {
        var r :| Newest(rows, r) && r.key == key;
        assert Newest(more, r);
      }
    }
  }
}
