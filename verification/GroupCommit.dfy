/** Group commit (DBImpl::Write and BuildBatchGroup, db/db_impl.cc 1195-1316).

    Writers queue up under a mutex.  The writer at the front becomes the leader: it may wait for room, joins the batches
    of a prefix of the queue, releases the mutex to log and insert them, and then completes that prefix.  The protocol
    is a state machine whose steps are the stretches between two releases of the mutex; writers may arrive between any
    two steps. */
module GroupCommit {
  import opened InternalKeys
  import opened Coding
  import opened Log
  import opened WriteBatches
  import opened Replay

  // A null batch asks for a compaction of the memtable.
  datatype Writer = Writer(id: nat, batch: Option<seq<Op>>, sync: bool)

  function ByteSize(ops: seq<Op>): nat {
    BATCH_HEADER + |EncodeOps(ops)|
  }

  function BatchOf(w: Writer): seq<Op> {
    if w.batch.Some? then w.batch.value else []
  }

  function Ops(writers: seq<Writer>): seq<Op> {
    if writers == [] then [] else Ops(writers[..|writers| - 1]) + BatchOf(writers[|writers| - 1])
  }

  // --- BuildBatchGroup ---

  const SMALL: nat := 0x2_0000      // 128 << 10
  const LARGE: nat := 0x10_0000     // 1 << 20

  function MaxSize(first: nat): nat {
    if first <= SMALL then first + SMALL else LARGE
  }

  // w may not join a group led by `leader` that has reached `size`.
  predicate Stops(leader: Writer, w: Writer, size: nat) {
    || (w.sync && !leader.sync)
    || (w.batch.Some? && size + ByteSize(w.batch.value) > MaxSize(ByteSize(BatchOf(leader))))
  }

  function Sizes(writers: seq<Writer>): nat {
    if writers == [] then 0
    else
      var w := writers[|writers| - 1];
      Sizes(writers[..|writers| - 1]) + if w.batch.Some? then ByteSize(w.batch.value) else 0
  }

  // The group is the longest prefix that no writer stops.
  ghost predicate IsGroup(queue: seq<Writer>, n: nat) {
    && 1 <= n <= |queue|
    && (forall j :: 1 <= j < n ==> !Stops(queue[0], queue[j], Sizes(queue[..j])))
    && (n < |queue| ==> Stops(queue[0], queue[n], Sizes(queue[..n])))
  }

  lemma Prefix(queue: seq<Writer>, n: nat)
    requires n < |queue|
    ensures Ops(queue[..n + 1]) == Ops(queue[..n]) + BatchOf(queue[n])
    ensures Sizes(queue[..n + 1])
            == Sizes(queue[..n]) + if queue[n].batch.Some? then ByteSize(queue[n].batch.value) else 0
  {
    hide ByteSize;
    assert queue[..n + 1][..n] == queue[..n];
  }

  lemma EmptyPrefix(queue: seq<Writer>)
    ensures Ops(queue[..0]) == [] && Sizes(queue[..0]) == 0
  {
  }

  // A writer after the leader brings a batch, so the joint batch is built in tmp_batch_.
  ghost predicate NeedsTmp(queue: seq<Writer>, n: nat)
    requires n <= |queue|
  {
    exists j :: 1 <= j < n && queue[j].batch.Some?
  }

  // A joint batch of a small leader grows by at most 128 KB, so that the leader is not held up; that of a larger leader
  // stays within 1 MB.  A group ends early only before a sync writer a non-sync leader may not carry, or before a batch
  // that would not fit.
  lemma GroupBounds(queue: seq<Writer>, n: nat)
    requires IsGroup(queue, n) && queue[0].batch.Some?
    ensures var leader := ByteSize(queue[0].batch.value);
            && (NeedsTmp(queue, n) && leader <= 131072 ==> Sizes(queue[..n]) <= leader + 131072)
            && (NeedsTmp(queue, n) && leader > 131072 ==> Sizes(queue[..n]) <= 1048576)
            && (n < |queue| ==>
                  || (queue[n].sync && !queue[0].sync)
                  || (queue[n].batch.Some?
                      && Sizes(queue[..n]) + ByteSize(queue[n].batch.value)
                         > if leader <= 131072 then leader + 131072 else 1048576))
    ensures forall j :: 1 <= j < n && queue[j].sync ==> queue[0].sync
  {
    hide Sizes, ByteSize;
    JointSize(queue, n, n);
  }

  lemma {:induction false} JointSize(queue: seq<Writer>, n: nat, m: nat)
    requires IsGroup(queue, n) && 1 <= m <= n
    ensures NeedsTmp(queue, m) ==> Sizes(queue[..m]) <= MaxSize(ByteSize(BatchOf(queue[0])))
    decreases m
  {
    hide Sizes, ByteSize, BatchOf, MaxSize;
    if m > 1 {
      JointSize(queue, n, m - 1);
      Prefix(queue, m - 1);
      assert !Stops(queue[0], queue[m - 1], Sizes(queue[..m - 1]));
    }
  }

  // Appends to whatever tmp_batch_ holds; that it holds nothing is an invariant of the protocol.
  method BuildBatchGroup(queue: seq<Writer>, tmpBatch: seq<Op>)
    returns (n: nat, result: seq<Op>, usesTmp: bool, tmpBatch': seq<Op>)
    requires queue != [] && queue[0].batch.Some?
    ensures IsGroup(queue, n) && (usesTmp <==> NeedsTmp(queue, n))
    ensures usesTmp ==> tmpBatch' == result == tmpBatch + Ops(queue[..n])
    ensures !usesTmp ==> tmpBatch' == tmpBatch && result == queue[0].batch.value == Ops(queue[..n])
  {
    hide Ops, Sizes, ByteSize;
    Prefix(queue, 0);
    EmptyPrefix(queue);
    var first := queue[0];
    result, tmpBatch' := first.batch.value, tmpBatch;
    var size := ByteSize(first.batch.value);
    var maxSize := MaxSize(size);
    usesTmp := false;
    n := 1;
    while n < |queue|
      invariant 1 <= n <= |queue| && size == Sizes(queue[..n])
      invariant forall j :: 1 <= j < n ==> !Stops(queue[0], queue[j], Sizes(queue[..j]))
      invariant usesTmp <==> NeedsTmp(queue, n)
      invariant usesTmp ==> tmpBatch' == result == tmpBatch + Ops(queue[..n])
      invariant !usesTmp ==> tmpBatch' == tmpBatch && result == first.batch.value == Ops(queue[..n])
    {
      var w := queue[n];
      Prefix(queue, n);
      if w.sync && !first.sync {
        return;
      }
      if w.batch.Some? {
        if size + ByteSize(w.batch.value) > maxSize {
          return;
        }
        size := size + ByteSize(w.batch.value);
        if !usesTmp {
          usesTmp := true;
          tmpBatch' := tmpBatch' + result;
        }
        assert tmpBatch' + w.batch.value == tmpBatch + Ops(queue[..n + 1]);
        tmpBatch' := tmpBatch' + w.batch.value;
        result := tmpBatch';
      } else {
        assert Ops(queue[..n + 1]) == Ops(queue[..n]);
      }
      n := n + 1;
    }
  }

  // --- The protocol ---

  datatype Phase = Idle | MakingRoom | Logging(n: nat, usesTmp: bool)

  // A logged group: its place in the order of arrival, the batch that was logged, its first sequence number, the log
  // file it went to, and how far it got.
  datatype Group = Group(start: nat, writers: seq<Writer>, ops: seq<Op>, first: nat, log: nat,
                         appended: bool, synced: bool)

  datatype Finish = Finish(writer: Writer, ok: bool, group: Option<nat>)

  datatype State = State(
    arrived: seq<Writer>,      // every writer so far, in order of arrival
    queue: seq<Writer>,
    phase: Phase,
    tmpBatch: seq<Op>,
    lastSequence: nat,
    log: nat,                  // the log file in use, counted from 0
    failed: bool,              // bg_error_ is set
    finished: seq<Finish>,
    groups: seq<Group>,
    rows: seq<Row>)            // every row inserted into a memtable

  datatype Action =
    | Arrive(w: Writer)
    | Lead
    | SwitchLog                                         // MakeRoomForWrite: a new memtable and a new log file
    | RoomMade(ok: bool, n: nat, usesTmp: bool)
    | Logged(appended: bool, synced: bool)
    | BackgroundError                                   // a flush or a compaction fails

  ghost predicate Enabled(s: State, a: Action) {
    match a
    case Arrive(w) => forall i :: 0 <= i < |s.arrived| ==> s.arrived[i].id != w.id
    case Lead => s.phase.Idle? && s.queue != []
    case SwitchLog => s.phase.MakingRoom? && !s.failed
    case RoomMade(ok, n, usesTmp) =>
      && s.phase.MakingRoom? && s.queue != [] && (s.failed ==> !ok)
      && (ok && s.queue[0].batch.Some? ==> IsGroup(s.queue, n) && (usesTmp <==> NeedsTmp(s.queue, n)))
    case Logged(_, _) => s.phase.Logging? && 1 <= s.phase.n <= |s.queue|
    case BackgroundError => true
  }

  function Finishes(writers: seq<Writer>, ok: bool, group: Option<nat>): (r: seq<Finish>)
    ensures |r| == |writers|
  {
    seq(|writers|, i requires 0 <= i < |writers| => Finish(writers[i], ok, group))
  }

  // Pops the first n writers and reports the status to them.
  function Complete(s: State, n: nat, ok: bool, group: Option<nat>): State
    requires n <= |s.queue|
  {
    s.(queue := s.queue[n..], finished := s.finished + Finishes(s.queue[..n], ok, group), phase := Idle)
  }

  // The group that is written when the leader is logging: its batch is tmp_batch_ or the leader's own.
  function NextGroup(s: State, appended: bool, synced: bool): Group
    requires s.phase.Logging? && 1 <= s.phase.n <= |s.queue|
  {
    Group(|s.finished|, s.queue[..s.phase.n], if s.phase.usesTmp then s.tmpBatch else BatchOf(s.queue[0]),
          s.lastSequence + 1, s.log, appended, appended && s.queue[0].sync && synced)
  }

  // The status the members of a group are told.
  predicate Told(g: Group) {
    g.appended && (g.writers != [] && g.writers[0].sync ==> g.synced)
  }

  ghost function Step(s: State, a: Action): State
    requires Enabled(s, a)
  {
    match a
    case Arrive(w) => s.(arrived := s.arrived + [w], queue := s.queue + [w])
    case Lead => s.(phase := MakingRoom)
    case SwitchLog => s.(log := s.log + 1)
    case RoomMade(ok, n, usesTmp) =>
      if ok && s.queue[0].batch.Some? then
        s.(phase := Logging(n, usesTmp), tmpBatch := if usesTmp then s.tmpBatch + Ops(s.queue[..n]) else s.tmpBatch)
      else Complete(s, 1, ok, None)
    case Logged(appended, synced) =>
      var g := NextGroup(s, appended, synced);
      Complete(s.(lastSequence := s.lastSequence + |g.ops|,
                  tmpBatch := if s.phase.usesTmp then [] else s.tmpBatch,
                  failed := s.failed || SyncFailed(g),
                  groups := s.groups + [g],
                  rows := s.rows + if Told(g) then Rows(g.first, g.ops) else []),
               s.phase.n, Told(g), Some(|s.groups|))
    case BackgroundError => s.(failed := true)
  }

  const Init := State([], [], Idle, [], 0, 0, false, [], [], [])

  ghost predicate IsRun(states: seq<State>, actions: seq<Action>) {
    && |states| == |actions| + 1
    && states[0] == Init
    && forall i :: 0 <= i < |actions| ==> Enabled(states[i], actions[i]) && states[i + 1] == Step(states[i], actions[i])
  }

  // --- The invariant ---

  function Writers(finished: seq<Finish>): (r: seq<Writer>)
    ensures |r| == |finished|
  {
    seq(|finished|, i requires 0 <= i < |finished| => finished[i].writer)
  }

  ghost predicate DistinctIds(ws: seq<Writer>) {
    forall i, j :: 0 <= i < j < |ws| ==> ws[i].id != ws[j].id
  }

  // No sync writer is led by a non-sync writer.
  ghost predicate SyncLed(ws: seq<Writer>) {
    forall j :: 0 <= j < |ws| && ws[j].sync ==> ws[0].sync
  }

  ghost predicate GroupOk(arrived: seq<Writer>, g: Group) {
    && |g.writers| > 0 && g.writers[0].batch.Some? && 0 < g.first
    && g.start + |g.writers| <= |arrived| && g.writers == arrived[g.start..g.start + |g.writers|]
    && g.ops == Ops(g.writers)
    && SyncLed(g.writers)
    && (g.synced ==> g.appended && g.writers[0].sync)
  }

  // Groups follow each other in the order of arrival, in sequence numbers and through the log files.
  ghost predicate Follows(g: Group, h: Group) {
    g.start + |g.writers| <= h.start && g.first + |g.ops| == h.first && g.log <= h.log
  }

  ghost predicate GroupsOk(arrived: seq<Writer>, groups: seq<Group>) {
    && (forall k :: 0 <= k < |groups| ==> GroupOk(arrived, groups[k]))
    && (forall k :: 0 <= k < |groups| - 1 ==> Follows(groups[k], groups[k + 1]))
  }

  // Where the next group would start, in arrivals, in sequence numbers and in log files.
  ghost predicate EndsBefore(groups: seq<Group>, position: nat, sequence: nat, log: nat) {
    if groups == [] then sequence == 1
    else
      var g := groups[|groups| - 1];
      g.start + |g.writers| <= position && g.first + |g.ops| == sequence && g.log <= log
  }

  // A writer with a batch that was told OK is in a logged group, and synced if it asked for it.
  ghost predicate FinishOk(groups: seq<Group>, p: nat, f: Finish) {
    && (f.group.None? ==> f.ok ==> f.writer.batch.None?)
    && (f.group.Some? ==>
          && f.group.value < |groups|
          && var g := groups[f.group.value];
             InGroup(g, p) && g.writers[p - g.start] == f.writer && (f.ok <==> Told(g)))
  }

  ghost predicate InGroup(g: Group, p: nat) {
    g.start <= p < g.start + |g.writers|
  }

  // Whatever the phase, the shared batch holds nothing but the batch being logged.
  ghost predicate PhaseOk(s: State) {
    match s.phase
    case Idle => s.tmpBatch == []
    case MakingRoom => s.tmpBatch == [] && s.queue != []
    case Logging(n, usesTmp) =>
      && 1 <= n <= |s.queue| && s.queue[0].batch.Some? && SyncLed(s.queue[..n])
      && (usesTmp ==> s.tmpBatch == Ops(s.queue[..n]))
      && (!usesTmp ==> s.tmpBatch == [] && BatchOf(s.queue[0]) == Ops(s.queue[..n]))
  }

  // The append succeeded and the sync did not: the record may or may not show up later.
  ghost predicate SyncFailed(g: Group) {
    g.writers != [] && g.appended && g.writers[0].sync && !g.synced
  }

  // No group is logged after a failed sync, and no writer from that group on is told OK.
  ghost predicate FailureHolds(s: State) {
    && (forall k :: 0 <= k < |s.groups| && SyncFailed(s.groups[k]) ==>
          s.failed && k == |s.groups| - 1 && !s.phase.Logging?)
    && (forall k, p :: 0 <= k < |s.groups| && SyncFailed(s.groups[k]) && s.groups[k].start <= p < |s.finished|
                       ==> !s.finished[p].ok)
  }

  ghost predicate Inv(s: State) {
    && DistinctIds(s.arrived)
    && Writers(s.finished) + s.queue == s.arrived
    && PhaseOk(s)
    && GroupsOk(s.arrived, s.groups)
    && EndsBefore(s.groups, |s.finished|, s.lastSequence + 1, s.log)
    && (forall p :: 0 <= p < |s.finished| ==> FinishOk(s.groups, p, s.finished[p]))
    && FailureHolds(s)
    && s.rows == GroupRows(s.groups)
  }

  function GroupRows(groups: seq<Group>): seq<Row> {
    if groups == [] then []
    else
      var g := groups[|groups| - 1];
      GroupRows(groups[..|groups| - 1]) + if Told(g) then Rows(g.first, g.ops) else []
  }

  // --- Every step keeps it ---

  lemma ArriveKeepsInv(s: State, w: Writer)
    requires Inv(s) && Enabled(s, Arrive(w))
    ensures Inv(Step(s, Arrive(w)))
  {
    hide GroupRows, Ops, FinishOk, SyncFailed, Follows, EndsBefore, Told;
    var s' := Step(s, Arrive(w));
    assert Writers(s.finished) + (s.queue + [w]) == Writers(s.finished) + s.queue + [w];
    forall k | 0 <= k < |s.groups| ensures GroupOk(s'.arrived, s.groups[k]) {
      var g := s.groups[k];
      assert s'.arrived[g.start..g.start + |g.writers|] == s.arrived[g.start..g.start + |g.writers|];
    }
    if s.phase.Logging? {
      assert s'.queue[..s.phase.n] == s.queue[..s.phase.n];
    }
  }

  lemma PopKeepsOrder(s: State, n: nat, ok: bool, group: Option<nat>)
    requires Writers(s.finished) + s.queue == s.arrived && n <= |s.queue|
    ensures var s' := Complete(s, n, ok, group);
            && Writers(s'.finished) + s'.queue == s.arrived
            && (forall p :: 0 <= p < |s.finished| ==> s'.finished[p] == s.finished[p])
            && (forall j :: 0 <= j < n ==> s'.finished[|s.finished| + j] == Finish(s.queue[j], ok, group))
  {
    var s' := Complete(s, n, ok, group);
    assert Writers(s'.finished) == Writers(s.finished) + s.queue[..n];
  }

  // A writer that is completed alone: no room, or no batch.
  lemma SkipKeepsInv(s: State, ok: bool)
    requires Inv(s) && s.phase.MakingRoom? && s.queue != [] && (ok ==> s.queue[0].batch.None? && !s.failed)
    ensures Inv(Complete(s, 1, ok, None))
  {
    hide GroupRows, Ops, GroupsOk, SyncFailed;
    PopKeepsOrder(s, 1, ok, None);
  }

  lemma GroupIsSyncLed(queue: seq<Writer>, n: nat)
    requires IsGroup(queue, n)
    ensures SyncLed(queue[..n])
  {
    hide Sizes;
    forall j | 0 <= j < n && queue[..n][j].sync ensures queue[..n][0].sync {
      assert j > 0 ==> !Stops(queue[0], queue[j], Sizes(queue[..j]));
    }
  }

  // Without a second batch the group's operations are the leader's own.
  lemma {:induction false} LeaderAlone(queue: seq<Writer>, n: nat)
    requires 1 <= n <= |queue| && !NeedsTmp(queue, n)
    ensures Ops(queue[..n]) == BatchOf(queue[0])
    decreases n
  {
    hide Ops;
    Prefix(queue, n - 1);
    if n == 1 {
      EmptyPrefix(queue);
    } else {
      LeaderAlone(queue, n - 1);
      assert queue[n - 1].batch.None?;
    }
  }

  lemma RoomKeepsInv(s: State, a: Action)
    requires Inv(s) && a.RoomMade? && Enabled(s, a)
    ensures Inv(Step(s, a))
  {
    hide GroupRows, Ops, GroupsOk, IsGroup, SyncFailed, NeedsTmp;
    if a.ok && s.queue[0].batch.Some? {
      GroupIsSyncLed(s.queue, a.n);
      GroupInQueue(s.queue, a.n);
      if !a.usesTmp {
        LeaderAlone(s.queue, a.n);
      }
      assert [] + Ops(s.queue[..a.n]) == Ops(s.queue[..a.n]);
    } else {
      SkipKeepsInv(s, a.ok);
    }
  }

  lemma GroupInQueue(queue: seq<Writer>, n: nat)
    requires IsGroup(queue, n)
    ensures 1 <= n <= |queue|
  {
  }

  lemma GroupAppends(arrived: seq<Writer>, groups: seq<Group>, g: Group)
    requires GroupsOk(arrived, groups) && GroupOk(arrived, g) && EndsBefore(groups, g.start, g.first, g.log)
    requires groups == [] ==> g.first == 1
    ensures GroupsOk(arrived, groups + [g])
    ensures EndsBefore(groups + [g], g.start + |g.writers|, g.first + |g.ops|, g.log)
  {
    hide GroupOk;
  }

  lemma FinishStays(groups: seq<Group>, g: Group, p: nat, f: Finish)
    requires FinishOk(groups, p, f)
    ensures FinishOk(groups + [g], p, f)
  {
  }

  // The writers of the group find themselves in it.
  lemma FinishesOk(s: State, g: Group, n: nat)
    requires Inv(s) && n <= |s.queue| && g.start == |s.finished| && g.writers == s.queue[..n]
    ensures var finished := s.finished + Finishes(g.writers, Told(g), Some(|s.groups|));
            forall p :: 0 <= p < |finished| ==> FinishOk(s.groups + [g], p, finished[p])
  {
    hide Ops, GroupRows, GroupsOk, FailureHolds, Told;
    var finished := s.finished + Finishes(g.writers, Told(g), Some(|s.groups|));
    forall p | 0 <= p < |finished| ensures FinishOk(s.groups + [g], p, finished[p]) {
      if p < |s.finished| {
        FinishStays(s.groups, g, p, s.finished[p]);
      }
    }
  }

  // A failed sync is told to its own group and sets the background error.
  lemma FailureRecorded(s: State, a: Action)
    requires Inv(s) && a.Logged? && Enabled(s, a)
    ensures FailureHolds(Step(s, a))
  {
    hide GroupRows, Ops, GroupsOk, FinishOk;
    var s' := Step(s, a);
    PopKeepsOrder(s, s.phase.n, Told(NextGroup(s, a.appended, a.synced)), Some(|s.groups|));
    assert forall k :: 0 <= k < |s.groups| ==> !SyncFailed(s.groups[k]) && s'.groups[k] == s.groups[k];
  }

  lemma LoggedKeepsInv(s: State, a: Action)
    requires Inv(s) && a.Logged? && Enabled(s, a)
    ensures Inv(Step(s, a))
  {
    hide GroupRows, Ops, FinishOk, GroupsOk, FailureHolds;
    var n := s.phase.n;
    var s' := Step(s, a);
    var g := NextGroup(s, a.appended, a.synced);
    assert s'.groups == s.groups + [g];
    PopKeepsOrder(s, n, Told(g), Some(|s.groups|));
    assert s.arrived[|s.finished|..|s.finished| + n] == s.queue[..n];
    GroupAppends(s.arrived, s.groups, g);
    FinishesOk(s, g, n);
    FailureRecorded(s, a);
    RowsGrow(s.groups, g);
    assert s'.rows == GroupRows(s'.groups);
  }

  lemma RowsGrow(groups: seq<Group>, g: Group)
    ensures GroupRows(groups + [g]) == GroupRows(groups) + if Told(g) then Rows(g.first, g.ops) else []
  {
    hide Told;
    assert (groups + [g])[..|groups|] == groups;
  }

  lemma StepKeepsInv(s: State, a: Action)
    requires Inv(s) && Enabled(s, a)
    ensures Inv(Step(s, a))
  {
    hide GroupRows, Ops, FinishOk, SyncFailed;
    match a
    case Arrive(w) => ArriveKeepsInv(s, w);
    case Lead =>
    case SwitchLog =>
    case RoomMade(_, _, _) => RoomKeepsInv(s, a);
    case Logged(_, _) => LoggedKeepsInv(s, a);
    case BackgroundError =>
  }

  lemma InitInv()
    ensures Inv(Init)
  {
  }

  lemma {:induction false} RunKeepsInv(states: seq<State>, actions: seq<Action>, i: nat)
    requires IsRun(states, actions) && i < |states|
    ensures Inv(states[i])
    decreases i
  {
    hide Inv, Step, Enabled;
    if i == 0 {
      InitInv();
    } else {
      RunKeepsInv(states, actions, i - 1);
      StepKeepsInv(states[i - 1], actions[i - 1]);
      assert states[i - 1 + 1] == Step(states[i - 1], actions[i - 1]);
    }
  }

  // The completion loop of Write (lines 1249-1258) pops exactly the group.
  method PopGroup(queue: seq<Writer>, lastWriter: nat) returns (ready: seq<Writer>, rest: seq<Writer>)
    requires DistinctIds(queue) && exists i :: 0 <= i < |queue| && queue[i].id == lastWriter
    ensures ready + rest == queue && ready != [] && ready[|ready| - 1].id == lastWriter
  {
    ready, rest := [], queue;
    while true
      invariant ready + rest == queue && exists i :: 0 <= i < |rest| && rest[i].id == lastWriter
      decreases |rest|
    {
      var w := rest[0];
      ready, rest := ready + [w], rest[1..];
      if w.id == lastWriter {
        return;
      }
    }
  }

  // --- What the invariant says ---

  // Groups are disjoint stretches of the order of arrival and of the sequence numbers.
  lemma {:induction false} GroupsInOrder(arrived: seq<Writer>, groups: seq<Group>, k: nat, k': nat)
    requires GroupsOk(arrived, groups) && k < k' < |groups|
    ensures groups[k].start + |groups[k].writers| <= groups[k'].start
    ensures groups[k].first + |groups[k].ops| <= groups[k'].first
    ensures groups[k].log <= groups[k'].log
    decreases k'
  {
    hide GroupOk;
    if k < k' - 1 {
      GroupsInOrder(arrived, groups, k, k' - 1);
    }
    assert Follows(groups[k' - 1], groups[k' - 1 + 1]);
  }

  // The first sequence number of the j-th writer of a group.
  function SequenceOf(g: Group, j: nat): nat
    requires j <= |g.writers|
  {
    g.first + |Ops(g.writers[..j])|
  }

  lemma {:induction false} OpsGrow(writers: seq<Writer>, i: nat, j: nat)
    requires i <= j <= |writers|
    ensures Ops(writers[..i]) <= Ops(writers[..j])
    decreases j
  {
    if i < j {
      assert writers[..j][..j - 1] == writers[..j - 1];
      OpsGrow(writers, i, j - 1);
    }
  }

  lemma InvGroups(s: State)
    requires Inv(s)
    ensures GroupsOk(s.arrived, s.groups)
  {
  }

  // Batches that are logged earlier have smaller sequence numbers, and no two batches share one.
  lemma SequencesDisjoint(s: State, k: nat, j: nat, k': nat, j': nat)
    requires Inv(s) && k < |s.groups| && k' < |s.groups|
    requires j < |s.groups[k].writers| && j' < |s.groups[k'].writers|
    requires k < k' || (k == k' && j < j')
    ensures SequenceOf(s.groups[k], j + 1) <= SequenceOf(s.groups[k'], j')
    ensures SequenceOf(s.groups[k], j + 1) == SequenceOf(s.groups[k], j) + |BatchOf(s.groups[k].writers[j])|
  {
    hide GroupRows, Inv;
    var g := s.groups[k];
    assert g.writers[..j + 1][..j] == g.writers[..j];
    if k < k' {
      InvGroups(s);
      assert GroupOk(s.arrived, g);
      GroupsInOrder(s.arrived, s.groups, k, k');
      OpsGrow(g.writers, j + 1, |g.writers|);
      assert g.writers[..|g.writers|] == g.writers;
    } else {
      OpsGrow(g.writers, j + 1, j');
    }
  }

  // In every reachable state: completion is in order of arrival; a writer with a batch that was told OK is in exactly
  // one logged group, and if it asked for sync its group was synced; every logged batch joins the batches of its
  // group; the shared batch is empty unless a leader is logging; and after a failed sync nobody is told OK.
  lemma CommitSafety(states: seq<State>, actions: seq<Action>, i: nat, p: nat)
    requires IsRun(states, actions) && i < |states| && p < |states[i].finished|
    ensures var s := states[i];
            && p < |s.arrived| && s.finished[p].writer == s.arrived[p]
            && (!s.phase.Logging? ==> s.tmpBatch == [])
            && var f := s.finished[p];
               (f.ok && f.writer.batch.Some? ==>
                  && f.group.Some? && f.group.value < |s.groups|
                  && var g := s.groups[f.group.value];
                     && InGroup(g, p) && g.writers[p - g.start] == f.writer && g.ops == Ops(g.writers)
                     && g.appended && (f.writer.sync ==> g.synced)
                     && forall k :: 0 <= k < |s.groups| && InGroup(s.groups[k], p) ==> k == f.group.value)
    ensures var s := states[i];
            forall k :: 0 <= k < |s.groups| && SyncFailed(s.groups[k]) ==>
              k == |s.groups| - 1 && forall q :: s.groups[k].start <= q < |s.finished| ==> !s.finished[q].ok
  {
    hide Ops, GroupRows;
    RunKeepsInv(states, actions, i);
    var s := states[i];
    var f := s.finished[p];
    assert s.arrived[p] == Writers(s.finished)[p];
    assert FinishOk(s.groups, p, f);
    if f.ok && f.writer.batch.Some? {
      var k0 := f.group.value;
      assert GroupOk(s.arrived, s.groups[k0]);
      forall k | 0 <= k < |s.groups| && InGroup(s.groups[k], p) ensures k == k0 {
        if k < k0 {
          GroupsInOrder(s.arrived, s.groups, k, k0);
        } else if k0 < k {
          GroupsInOrder(s.arrived, s.groups, k0, k);
        }
      }
    }
  }
}
