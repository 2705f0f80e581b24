/** What survives a crash (db/db_impl.cc 347-372, 427-462, 1195-1247): the log files that group commit wrote are replayed
    in order, each cut short wherever the disk lost its unsynced tail. */
module Durability {
  import opened InternalKeys
  import opened Coding
  import opened Log
  import opened WriteBatches
  import opened Replay
  import opened GroupCommit

  // The groups whose records went to log file j, in order.
  function LogGroups(groups: seq<Group>, j: nat): seq<Group> {
    if groups == [] then []
    else
      var n := |groups| - 1;
      LogGroups(groups[..n], j) + if groups[n].log == j then [groups[n]] else []
  }

  // The record reached the log file and can be encoded.
  ghost predicate Recorded(g: Group) {
    g.appended && OpsOk(g.ops) && g.first < TWO64
  }

  ghost predicate AllRecorded(groups: seq<Group>) {
    forall k :: 0 <= k < |groups| ==> Recorded(groups[k])
  }

  ghost function BatchesOf(groups: seq<Group>): (batches: seq<Batch>)
    requires AllRecorded(groups)
    ensures |batches| == |groups|
  {
    seq(|groups|, k requires 0 <= k < |groups| && Recorded(groups[k]) => Batch(groups[k].first, groups[k].ops))
  }

  ghost function LogFile(groups: seq<Group>): seq<Bytes>
    requires AllRecorded(groups)
  {
    Reps(BatchesOf(groups))
  }

  // The record a leader logs (lines 1216-1224): its group's batch under the next sequence number.
  method RecordOf(batch: WriteBatch, lastSequence: nat) returns (record: Bytes)
    requires batch.Valid() && lastSequence + 1 < TWO64
    modifies batch
    ensures batch.Valid() && batch.ops == old(batch.ops) && record == Rep(lastSequence + 1, batch.ops)
  {
    batch.SetSequence(lastSequence + 1);
    record := batch.rep;
  }

  // The rows of all groups, also of one whose sync failed.
  function AllRows(groups: seq<Group>): seq<Row> {
    if groups == [] then []
    else
      var n := |groups| - 1;
      AllRows(groups[..n]) + Rows(groups[n].first, groups[n].ops)
  }

  // DBImpl::Recover: the logs in the order of their numbers.
  ghost function RecoveredRows(disks: seq<Bytes>): seq<Row> {
    if disks == [] then []
    else RecoveredRows(disks[..|disks| - 1]) + ReplayRows(ReadAll(disks[|disks| - 1], 0).0)
  }

  // --- One log file ---

  lemma {:induction false} LogGroupsFrom(groups: seq<Group>, j: nat)
    ensures forall g :: g in LogGroups(groups, j) <==> g in groups && g.log == j
    ensures AllRecorded(groups) ==> AllRecorded(LogGroups(groups, j))
  {
    if groups != [] {
      var n := |groups| - 1;
      LogGroupsFrom(groups[..n], j);
      assert groups == groups[..n] + [groups[n]];
    }
  }

  lemma {:induction false} BatchesRows(groups: seq<Group>)
    requires AllRecorded(groups)
    ensures LiveRows(BatchesOf(groups)) == AllRows(groups)
  {
    if groups != [] {
      var n := |groups| - 1;
      assert Recorded(groups[n]);
      BatchesRows(groups[..n]);
      assert BatchesOf(groups)[..n] == BatchesOf(groups[..n]);
    }
  }

  // A log with k whole records on disk replays to the rows of its first k groups.
  lemma LogReplays(groups: seq<Group>, disk: Bytes, k: nat)
    requires AllRecorded(groups) && disk <= WriteAll(LogFile(groups)) && WholeRecords(LogFile(groups), |disk|, k)
    ensures k <= |groups| && ReplayRows(ReadAll(disk, 0).0) == AllRows(groups[..k])
  {
    hide ReadAll, WriteAll, ReplayRows, AllRows, LiveRows, Reps;
    var batches := BatchesOf(groups);
    forall j | 0 <= j < |batches| ensures OpsOk(batches[j].ops) {
      assert Recorded(groups[j]);
    }
    RecoveryReproduces(batches, disk, k);
    assert batches[..k] == BatchesOf(groups[..k]);
    BatchesRows(groups[..k]);
  }

  // Wherever a log is cut, some number of records is whole.
  lemma {:induction false} SomeAreWhole(records: seq<Bytes>, size: nat, n: nat) returns (k: nat)
    requires n <= |records| && (n < |records| ==> size < |WriteAll(records[..n + 1])|)
    ensures WholeRecords(records, size, k)
    decreases n
  {
    if |WriteAll(records[..n])| <= size {
      k := n;
    } else {
      assert n > 0 by {
        assert records[..0] == [];
      }
      k := SomeAreWhole(records, size, n - 1);
    }
  }

  // --- All log files: nothing lost, nothing added ---

  // The rows of the first n log files.
  function LogRows(groups: seq<Group>, n: nat): seq<Row> {
    if n == 0 then [] else LogRows(groups, n - 1) + AllRows(LogGroups(groups, n - 1))
  }

  ghost predicate LogsAscend(groups: seq<Group>) {
    forall i, k :: 0 <= i < k < |groups| ==> groups[i].log <= groups[k].log
  }

  lemma OneGroupMore(groups: seq<Group>, g: Group, j: nat)
    ensures LogGroups(groups + [g], j) == if g.log == j then LogGroups(groups, j) + [g] else LogGroups(groups, j)
    ensures AllRows(groups + [g]) == AllRows(groups) + Rows(g.first, g.ops)
  {
    hide Rows;
    assert (groups + [g])[..|groups|] == groups;
  }

  lemma {:induction false} LaterLogAdds(groups: seq<Group>, g: Group, n: nat)
    requires forall k :: 0 <= k < |groups| ==> groups[k].log <= g.log
    ensures LogRows(groups + [g], n) == if g.log < n then LogRows(groups, n) + Rows(g.first, g.ops) else LogRows(groups, n)
    decreases n
  {
    hide Rows, LogGroups, AllRows;
    if n > 0 {
      LaterLogAdds(groups, g, n - 1);
      OneGroupMore(groups, g, n - 1);
      if g.log < n - 1 {
        EmptyLog(groups, n - 1);
      } else if g.log == n - 1 {
        OneGroupMore(LogGroups(groups, n - 1), g, n - 1);
        assert LogRows(groups, n - 1) + (AllRows(LogGroups(groups, n - 1)) + Rows(g.first, g.ops))
            == LogRows(groups, n - 1) + AllRows(LogGroups(groups, n - 1)) + Rows(g.first, g.ops);
      }
    }
  }

  lemma {:induction false} EmptyLog(groups: seq<Group>, j: nat)
    requires forall k :: 0 <= k < |groups| ==> groups[k].log != j
    ensures LogGroups(groups, j) == [] && AllRows(LogGroups(groups, j)) == []
  {
    if groups != [] {
      EmptyLog(groups[..|groups| - 1], j);
    }
  }

  lemma {:induction false} LogsPartition(groups: seq<Group>, n: nat)
    requires LogsAscend(groups) && forall k :: 0 <= k < |groups| ==> groups[k].log < n
    ensures LogRows(groups, n) == AllRows(groups)
    decreases |groups|
  {
    if groups == [] {
      NoLogs(n);
    } else {
      var m := |groups| - 1;
      assert groups[..m] + [groups[m]] == groups;
      LogsPartition(groups[..m], n);
      LaterLogAdds(groups[..m], groups[m], n);
      OneGroupMore(groups[..m], groups[m], n);
    }
  }

  lemma {:induction false} NoLogs(n: nat)
    ensures LogRows([], n) == []
  {
    if n > 0 {
      NoLogs(n - 1);
    }
  }

  lemma {:induction false} WholeLogsReplay(groups: seq<Group>, disks: seq<Bytes>, n: nat)
    requires AllRecorded(groups) && n <= |disks|
    requires forall j :: 0 <= j < n ==> WholeLog(groups, j, disks[j])
    ensures RecoveredRows(disks[..n]) == LogRows(groups, n)
    decreases n
  {
    hide ReadAll, WriteAll, ReplayRows, AllRows, LogGroups;
    if n > 0 {
      WholeLogsReplay(groups, disks, n - 1);
      assert disks[..n][..n - 1] == disks[..n - 1];
      LogGroupsFrom(groups, n - 1);
      var here := LogGroups(groups, n - 1);
      var records := LogFile(here);
      assert WholeLog(groups, n - 1, disks[n - 1]);
      assert records[..|records|] == records && here[..|here|] == here;
      LogReplays(here, disks[n - 1], |here|);
    }
  }

  ghost predicate WholeLog(groups: seq<Group>, j: nat, disk: Bytes) {
    var here := LogGroups(groups, j);
    AllRecorded(here) && disk == WriteAll(LogFile(here))
  }

  lemma InvLogs(s: State)
    requires GroupCommit.Inv(s)
    ensures LogsAscend(s.groups) && forall k :: 0 <= k < |s.groups| ==> s.groups[k].log <= s.log
  {
    hide GroupRows, Ops, GroupOk, FinishOk;
    forall i, k | 0 <= i < k < |s.groups| ensures s.groups[i].log <= s.groups[k].log {
      GroupsInOrder(s.arrived, s.groups, i, k);
    }
  }

  // After any run whose appends succeeded, with any number of log files, replaying complete logs gives the rows of
  // every group in order; unless a sync failed, these are exactly the rows the writers inserted.
  lemma RecoversRun(states: seq<State>, actions: seq<Action>, disks: seq<Bytes>)
    requires IsRun(states, actions) && AllRecorded(states[|actions|].groups) && |disks| == states[|actions|].log + 1
    requires forall j :: 0 <= j < |disks| ==> WholeLog(states[|actions|].groups, j, disks[j])
    ensures var s := states[|actions|];
            && RecoveredRows(disks) == AllRows(s.groups)
            && ((forall k :: 0 <= k < |s.groups| ==> !SyncFailed(s.groups[k])) ==> RecoveredRows(disks) == s.rows)
  {
    hide AllRows, LogRows, RecoveredRows, LogGroups, WholeLog;
    var s := states[|actions|];
    RunKeepsInv(states, actions, |actions|);
    InvLogs(s);
    WholeLogsReplay(s.groups, disks, |disks|);
    assert disks[..|disks|] == disks;
    LogsPartition(s.groups, |disks|);
    if forall k :: 0 <= k < |s.groups| ==> !SyncFailed(s.groups[k]) {
      InsertedRows(s.groups);
    }
  }

  lemma {:induction false} InsertedRows(groups: seq<Group>)
    requires forall k :: 0 <= k < |groups| ==> Told(groups[k])
    ensures GroupRows(groups) == AllRows(groups)
  {
    if groups != [] {
      InsertedRows(groups[..|groups| - 1]);
    }
  }

  // The operations of all groups, one after the other.
  function AllOps(groups: seq<Group>): seq<Op> {
    if groups == [] then [] else AllOps(groups[..|groups| - 1]) + groups[|groups| - 1].ops
  }

  lemma {:induction false} RowsJoin(arrived: seq<GroupCommit.Writer>, groups: seq<Group>)
    requires GroupsOk(arrived, groups) && groups != []
    ensures AllRows(groups) == Rows(groups[0].first, AllOps(groups))
    ensures groups[0].first + |AllOps(groups)| == groups[|groups| - 1].first + |groups[|groups| - 1].ops|
  {
    hide GroupOk, Rows;
    var n := |groups| - 1;
    var g, before := groups[n], groups[..n];
    if n == 0 {
      assert AllOps(before) == [] && AllRows(before) == [];
    } else {
      RowsJoin(arrived, before);
      assert before[0] == groups[0] && before[n - 1] == groups[n - 1];
      assert Follows(groups[n - 1], groups[n - 1 + 1]);
      RowsAppend(groups[0].first, AllOps(before), g.ops);
    }
  }

  lemma RowsAppend(first: nat, a: seq<Op>, b: seq<Op>)
    ensures Rows(first, a + b) == Rows(first, a) + Rows(first + |a|, b)
  {
  }

  // What a database holds after its logs are replayed: reading the newest row of a key gives what carrying out all logged
  // operations in order gives.
  lemma RecoveredReads(states: seq<State>, actions: seq<Action>, disks: seq<Bytes>)
    requires IsRun(states, actions) && AllRecorded(states[|actions|].groups) && |disks| == states[|actions|].log + 1
    requires forall j :: 0 <= j < |disks| ==> WholeLog(states[|actions|].groups, j, disks[j])
    ensures ReadAs(RecoveredRows(disks), Apply(AllOps(states[|actions|].groups)))
  {
    hide RecoveredRows, WholeLog, ReadAs, GroupCommit.Inv;
    var s := states[|actions|];
    RecoversRun(states, actions, disks);
    RunKeepsInv(states, actions, |actions|);
    if s.groups == [] {
      RowsReadAs(1, []);
      assert AllRows(s.groups) == Rows(1, []);
    } else {
      InvGroups(s);
      RowsJoin(s.arrived, s.groups);
      RowsReadAs(s.groups[0].first, AllOps(s.groups));
    }
  }

  // --- Crashes that cut the logs ---

  // What a disk may hold of a log: a prefix that reaches its last successful sync.
  ghost predicate KeptBySync(groups: seq<Group>, disk: Bytes)
    requires AllRecorded(groups)
  {
    && disk <= WriteAll(LogFile(groups))
    && forall k :: 0 <= k < |groups| && groups[k].synced ==> |WriteAll(LogFile(groups)[..k + 1])| <= |disk|
  }

  ghost predicate AfterCrash(s: State, disks: seq<Bytes>) {
    && |disks| == s.log + 1
    && forall j :: 0 <= j < |disks| ==> AllRecorded(LogGroups(s.groups, j)) && KeptBySync(LogGroups(s.groups, j), disks[j])
  }

  lemma {:induction false} RowsOfGroup(groups: seq<Group>, k: nat, n: nat, r: Row)
    requires k < n <= |groups| && r in Rows(groups[k].first, groups[k].ops)
    ensures r in AllRows(groups[..n])
    decreases n
  {
    assert groups[..n][..n - 1] == groups[..n - 1];
    if k < n - 1 {
      RowsOfGroup(groups, k, n - 1, r);
    }
  }

  // A synced group of a log is replayed from whatever the crash left of that log.
  lemma SyncedGroupReplays(groups: seq<Group>, disk: Bytes, k: nat, r: Row)
    requires AllRecorded(groups) && KeptBySync(groups, disk) && k < |groups| && groups[k].synced
    requires r in Rows(groups[k].first, groups[k].ops)
    ensures r in ReplayRows(ReadAll(disk, 0).0)
  {
    hide ReadAll, WriteAll, ReplayRows, AllRows, Rows;
    var records := LogFile(groups);
    var n := SomeAreWhole(records, |disk|, |records|);
    if n <= k {
      WritesGrow(records, n + 1, k + 1);
      assert false;
    }
    LogReplays(groups, disk, n);
    RowsOfGroup(groups, k, n, r);
  }

  lemma {:induction false} RecoveredFrom(disks: seq<Bytes>, j: nat, n: nat, r: Row)
    requires j < n <= |disks| && r in ReplayRows(ReadAll(disks[j], 0).0)
    ensures r in RecoveredRows(disks[..n])
    decreases n
  {
    hide ReadAll, ReplayRows;
    assert disks[..n][..n - 1] == disks[..n - 1];
    if j < n - 1 {
      RecoveredFrom(disks, j, n - 1, r);
    }
  }

  // The rows of a writer are a stretch of the rows of its group.
  lemma WriterRows(g: Group, j: nat, r: Row)
    requires g.ops == Ops(g.writers) && j < |g.writers|
    requires r in Rows(SequenceOf(g, j), BatchOf(g.writers[j]))
    ensures r in Rows(g.first, g.ops)
  {
    hide Ops, Rows, BatchOf, OpRow;
    var before, batch := Ops(g.writers[..j]), BatchOf(g.writers[j]);
    Prefix(g.writers, j);
    OpsGrow(g.writers, j + 1, |g.writers|);
    assert g.writers[..|g.writers|] == g.writers;
    var i :| 0 <= i < |batch| && r == OpRow(batch[i], SequenceOf(g, j) + i);
    assert (before + batch)[|before| + i] == batch[i] == g.ops[|before| + i];
    assert Rows(g.first, g.ops)[|before| + i] == r;
  }

  // End-to-end durability: whatever a crash leaves of the logs, if each log still holds what its last successful sync
  // wrote, every row of every sync writer that was told OK is recovered.
  lemma SyncedWritesSurvive(states: seq<State>, actions: seq<Action>, disks: seq<Bytes>, p: nat, r: Row)
    requires IsRun(states, actions) && AllRecorded(states[|actions|].groups) && AfterCrash(states[|actions|], disks)
    requires var s := states[|actions|];
             && p < |s.finished| && s.finished[p].ok && s.finished[p].writer.sync && s.finished[p].group.Some?
             && s.finished[p].group.value < |s.groups|
             && var g := s.groups[s.finished[p].group.value];
                InGroup(g, p) && r in Rows(SequenceOf(g, p - g.start), BatchOf(s.finished[p].writer))
    ensures r in RecoveredRows(disks)
  {
    hide Ops, Rows, RecoveredRows, ReplayRows, ReadAll, WriteAll;
    var s := states[|actions|];
    var f := s.finished[p];
    var g := s.groups[f.group.value];
    RunKeepsInv(states, actions, |actions|);
    InvLogs(s);
    OkIsSynced(s, p);
    WriterRows(g, p - g.start, r);
    LogGroupsFrom(s.groups, g.log);
    var here := LogGroups(s.groups, g.log);
    var k :| 0 <= k < |here| && here[k] == g;
    SyncedGroupReplays(here, disks[g.log], k, r);
    RecoveredFrom(disks, g.log, |disks|, r);
    assert disks[..|disks|] == disks;
  }

  lemma OkIsSynced(s: State, p: nat)
    requires GroupCommit.Inv(s) && p < |s.finished| && s.finished[p].group.Some?
    requires s.finished[p].ok && s.finished[p].writer.sync
    ensures var f := s.finished[p];
            && f.group.value < |s.groups|
            && var g := s.groups[f.group.value];
               InGroup(g, p) && g.writers[p - g.start] == f.writer && g.synced && g.ops == Ops(g.writers)
  {
    hide Ops, GroupRows, FailureHolds;
    var f := s.finished[p];
    assert FinishOk(s.groups, p, f);
    var g := s.groups[f.group.value];
    assert GroupOk(s.arrived, g);
    assert g.writers[p - g.start].sync;
  }

  // --- The sequence number writing goes on from ---

  // DBImpl::Recover keeps the largest sequence number over all logs.
  ghost function RecoveredMax(disks: seq<Bytes>): nat {
    if disks == [] then 0 else MaxSequence(ReadAll(disks[|disks| - 1], 0).0, RecoveredMax(disks[..|disks| - 1]))
  }

  // The records are counted in 32 bits and numbered in 64.
  ghost predicate AllCountable(groups: seq<Group>) {
    forall k :: 0 <= k < |groups| ==>
      groups[k].first > 0 && |groups[k].ops| < TWO32 && groups[k].first + |groups[k].ops| <= TWO64
  }

  function LastOfGroup(g: Group): int {
    g.first + |g.ops| - 1
  }

  // m is the largest last sequence number of the groups in the first n logs, or start.
  ghost predicate IsMax(groups: seq<Group>, n: nat, start: nat, m: nat) {
    && start <= m && (forall k :: 0 <= k < |groups| && groups[k].log < n ==> LastOfGroup(groups[k]) <= m)
    && (m == start || exists k :: 0 <= k < |groups| && groups[k].log < n && LastOfGroup(groups[k]) == m)
  }

  lemma {:induction false} LogMax(groups: seq<Group>, start: nat)
    requires AllRecorded(groups) && AllCountable(groups)
    ensures var m := MaxSequence(LogFile(groups), start);
            && start <= m && (forall g :: g in groups ==> LastOfGroup(g) <= m)
            && (m == start || exists g :: g in groups && LastOfGroup(g) == m)
  {
    hide LastSequence, Rep;
    if groups != [] {
      var n := |groups| - 1;
      var g := groups[n];
      assert groups == groups[..n] + [g] && Recorded(g);
      LogMax(groups[..n], start);
      assert LogFile(groups)[..n] == LogFile(groups[..n]);
      BatchLast(Batch(g.first, g.ops));
      var before, m := MaxSequence(LogFile(groups[..n]), start), MaxSequence(LogFile(groups), start);
      assert m == if LastOfGroup(g) > before then LastOfGroup(g) else before;
      if m == before && before != start {
        var h :| h in groups[..n] && LastOfGroup(h) == before;
        assert h in groups;
      }
    }
  }

  lemma {:induction false} LogsMax(groups: seq<Group>, disks: seq<Bytes>, n: nat)
    requires AllRecorded(groups) && AllCountable(groups) && n <= |disks|
    requires forall j :: 0 <= j < n ==> WholeLog(groups, j, disks[j])
    ensures IsMax(groups, n, 0, RecoveredMax(disks[..n]))
    decreases n
  {
    hide ReadAll, WriteAll, MaxSequence, LogGroups;
    if n > 0 {
      LogsMax(groups, disks, n - 1);
      assert disks[..n][..n - 1] == disks[..n - 1];
      LogGroupsFrom(groups, n - 1);
      var here := LogGroups(groups, n - 1);
      assert WholeLog(groups, n - 1, disks[n - 1]);
      RoundTrip(LogFile(here));
      assert AllCountable(here) by {
        forall k | 0 <= k < |here| ensures here[k].first > 0 && |here[k].ops| < TWO32 && here[k].first + |here[k].ops| <= TWO64 {
          assert here[k] in groups;
        }
      }
      var before := RecoveredMax(disks[..n - 1]);
      LogMax(here, before);
      OneLogMore(groups, here, n, before, MaxSequence(LogFile(here), before));
    }
  }

  lemma OneLogMore(groups: seq<Group>, here: seq<Group>, n: nat, before: nat, m: nat)
    requires n > 0 && IsMax(groups, n - 1, 0, before) && forall g :: g in here <==> g in groups && g.log == n - 1
    requires before <= m && (forall g :: g in here ==> LastOfGroup(g) <= m)
    requires m == before || exists g :: g in here && LastOfGroup(g) == m
    ensures IsMax(groups, n, 0, m)
  {
    forall k | 0 <= k < |groups| && groups[k].log < n ensures LastOfGroup(groups[k]) <= m {
      assert groups[k].log == n - 1 ==> groups[k] in here;
    }
    if m != before {
      var g :| g in here && LastOfGroup(g) == m;
      var k :| 0 <= k < |groups| && groups[k] == g;
      assert groups[k].log < n;
    }
  }

  // After a run that is whole on disk, recovery goes on from exactly the sequence number the run had reached.
  lemma RecoversLastSequence(states: seq<State>, actions: seq<Action>, disks: seq<Bytes>)
    requires IsRun(states, actions) && AllRecorded(states[|actions|].groups) && |disks| == states[|actions|].log + 1
    requires states[|actions|].lastSequence < TWO64
    requires forall k :: 0 <= k < |states[|actions|].groups| ==> |states[|actions|].groups[k].ops| < TWO32
    requires forall j :: 0 <= j < |disks| ==> WholeLog(states[|actions|].groups, j, disks[j])
    ensures RecoveredMax(disks) == states[|actions|].lastSequence
  {
    hide RecoveredMax, WholeLog, IsMax;
    var s := states[|actions|];
    RunKeepsInv(states, actions, |actions|);
    InvLogs(s);
    GroupsEnd(s);
    LogsMax(s.groups, disks, |disks|);
    assert disks[..|disks|] == disks;
    MaxIsLast(s, |disks|, RecoveredMax(disks));
  }

  // Every group ends at or before the last sequence number, and the last one at it.
  lemma GroupsEnd(s: State)
    requires GroupCommit.Inv(s)
    ensures forall k :: 0 <= k < |s.groups| ==> 0 < s.groups[k].first && LastOfGroup(s.groups[k]) <= s.lastSequence
    ensures s.groups == [] ==> s.lastSequence == 0
    ensures s.groups != [] ==> LastOfGroup(s.groups[|s.groups| - 1]) == s.lastSequence
  {
    hide GroupRows, Ops, GroupOk, FinishOk;
    FirstIsPositive(s);
    forall k | 0 <= k < |s.groups| - 1 ensures LastOfGroup(s.groups[k]) <= s.lastSequence {
      GroupsInOrder(s.arrived, s.groups, k, |s.groups| - 1);
    }
  }

  lemma FirstIsPositive(s: State)
    requires GroupCommit.Inv(s)
    ensures forall k :: 0 <= k < |s.groups| ==> 0 < s.groups[k].first
  {
    hide GroupRows, Ops, FinishOk;
    assert forall k :: 0 <= k < |s.groups| ==> GroupOk(s.arrived, s.groups[k]);
  }

  lemma MaxIsLast(s: State, n: nat, m: nat)
    requires IsMax(s.groups, n, 0, m) && forall k :: 0 <= k < |s.groups| ==> s.groups[k].log < n
    requires forall k :: 0 <= k < |s.groups| ==> LastOfGroup(s.groups[k]) <= s.lastSequence
    requires s.groups == [] ==> s.lastSequence == 0
    requires s.groups != [] ==> LastOfGroup(s.groups[|s.groups| - 1]) == s.lastSequence
    ensures m == s.lastSequence
  {
  }
}
