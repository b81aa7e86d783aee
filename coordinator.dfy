/** The coordinator's scheduling state machine (src/mr/coordinator.go).

    The pure part of this module describes one GetTask call as a function
    on an abstract State: CommitReport records the report the caller
    brings, AssignTask hands out the next task. The class Coordinator holds
    the same state in arrays and counters, updates it in place, and is
    proved to follow those functions. The lemmas state what the scheduler
    promises: counters match the unfinished tasks, commits are idempotent,
    progress is monotone, reduce waits for map, and the lowest eligible
    task is handed out. */
module Coordinator {
  import opened GoStrings
  import opened Seqs
  import opened Protocol

  /** Seconds after which an unfinished task is handed out again. */
  const Timeout: int := 10

  /** A task's startTime. Unassigned is Go's zero time.Time, which lies
      before every clock reading, so a never-assigned task is always due. */
  datatype Stamp = Unassigned | AssignedAt(time: int)

  /** `startTime.Before(t)`. */
  predicate Before(s: Stamp, t: int) {
    s.Unassigned? || s.time < t
  }

  datatype MapTask = MapTask(id: int, file: GoString, startTime: Stamp, done: bool)

  datatype ReduceTask = ReduceTask(id: int, files: seq<GoString>, startTime: Stamp, done: bool)

  predicate MapPending(t: MapTask) {
    !t.done
  }

  predicate ReducePending(t: ReduceTask) {
    !t.done
  }

  /** A map task may be handed out: unfinished, and last handed out before the cutoff. */
  predicate MapEligible(t: MapTask, cutoff: int) {
    !t.done && Before(t.startTime, cutoff)
  }

  predicate ReduceEligible(t: ReduceTask, cutoff: int) {
    !t.done && Before(t.startTime, cutoff)
  }

  /** Everything the coordinator holds, as a value. */
  datatype State = State(mapTasks: seq<MapTask>, reduceTasks: seq<ReduceTask>,
                         mapRemain: int, reduceRemain: int)

  /** The counters are the numbers of unfinished tasks, and each task's id is its index. */
  predicate Inv(s: State) {
    && s.mapRemain == CountWhere(s.mapTasks, MapPending)
    && s.reduceRemain == CountWhere(s.reduceTasks, ReducePending)
    && (forall i :: 0 <= i < |s.mapTasks| ==> s.mapTasks[i].id == i)
    && (forall i :: 0 <= i < |s.reduceTasks| ==> s.reduceTasks[i].id == i)
  }

  /** Every map and every reduce task has been reported done. */
  predicate AllDone(s: State) {
    && (forall i :: 0 <= i < |s.mapTasks| ==> s.mapTasks[i].done)
    && (forall i :: 0 <= i < |s.reduceTasks| ==> s.reduceTasks[i].done)
  }

  /** The state MakeCoordinator builds: one map task per input, in input
      order, and nReduce reduce tasks with empty file lists. */
  function Initial(files: seq<GoString>, nReduce: nat): State {
    State(seq(|files|, i requires 0 <= i < |files| => MapTask(i, files[i], Unassigned, false)),
          seq(nReduce, i => ReduceTask(i, [], Unassigned, false)),
          |files|, nReduce)
  }

  lemma InitialInv(files: seq<GoString>, nReduce: nat)
    ensures Inv(Initial(files, nReduce))
    ensures AllDone(Initial(files, nReduce)) <==> |files| == 0 && nReduce == 0
  {
    var s := Initial(files, nReduce);
    CountWhereAll(s.mapTasks, MapPending);
    CountWhereAll(s.reduceTasks, ReducePending);
    if |files| > 0 {
      assert !s.mapTasks[0].done;
    }
    if nReduce > 0 {
      assert !s.reduceTasks[0].done;
    }
  }

  /** Under the invariant, a zero counter means every task of that kind is done. */
  lemma RemainZeroIffDone(s: State)
    requires Inv(s)
    ensures s.mapRemain >= 0 && s.reduceRemain >= 0
    ensures s.mapRemain == 0 <==> forall i :: 0 <= i < |s.mapTasks| ==> s.mapTasks[i].done
    ensures s.reduceRemain == 0 <==> forall i :: 0 <= i < |s.reduceTasks| ==> s.reduceTasks[i].done
    ensures s.mapRemain == 0 && s.reduceRemain == 0 <==> AllDone(s)
  {
    CountWhereZero(s.mapTasks, MapPending);
    CountWhereZero(s.reduceTasks, ReducePending);
  }

  // ---------------------------------------------------------------------
  // Step 1: commit the caller's report
  // ---------------------------------------------------------------------

  /** The indexing the source does without bounds checks succeeds: the
      reported task exists and, for a first-time map report, every
      non-empty bucket entry names an existing reduce task. */
  predicate RequestInBounds(s: State, req: TaskRequest) {
    match req.kind
    case Map =>
      && 0 <= req.id < |s.mapTasks|
      && (!s.mapTasks[req.id].done ==>
            forall r :: |s.reduceTasks| <= r < |req.files| ==> req.files[r] == [])
    case Reduce => 0 <= req.id < |s.reduceTasks|
    case _ => true
  }

  /** Reduce task r after a map report: bucket file r is appended if non-empty. */
  function WithReport(t: ReduceTask, files: seq<GoString>, r: int): ReduceTask {
    if 0 <= r < |files| && files[r] != [] then t.(files := t.files + [files[r]]) else t
  }

  /** The commit phase: a first report for a task marks it done, adds a
      map task's bucket files to the reduce tasks and decrements the
      counter; anything else leaves the state as it is. */
  function CommitReport(s: State, req: TaskRequest): State
    requires RequestInBounds(s, req)
  {
    match req.kind
    case Map =>
      var t := s.mapTasks[req.id];
      if t.done then s
      else s.(mapTasks := s.mapTasks[req.id := t.(done := true)],
              reduceTasks := seq(|s.reduceTasks|, r requires 0 <= r < |s.reduceTasks| =>
                                   WithReport(s.reduceTasks[r], req.files, r)),
              mapRemain := s.mapRemain - 1)
    case Reduce =>
      var t := s.reduceTasks[req.id];
      if t.done then s
      else s.(reduceTasks := s.reduceTasks[req.id := t.(done := true)],
              reduceRemain := s.reduceRemain - 1)
    case _ => s
  }

  // ---------------------------------------------------------------------
  // Step 2: hand out the next task
  // ---------------------------------------------------------------------

  /** The new state and the response of one call. */
  datatype Outcome = Outcome(next: State, response: TaskResponse)

  /** The assignment phase at clock reading `now`. */
  function AssignTask(s: State, now: int): Outcome {
    var cutoff := now - Timeout;
    if s.mapRemain > 0 then
      var i := FirstWhere(s.mapTasks, (t: MapTask) => MapEligible(t, cutoff));
      if i < |s.mapTasks| then
        var t := s.mapTasks[i];
        Outcome(s.(mapTasks := s.mapTasks[i := t.(startTime := AssignedAt(now))]),
                TaskResponse(Map, t.id, [t.file], |s.reduceTasks|))
      else Outcome(s, Bare(Sleep))
    else if s.reduceRemain > 0 then
      var i := FirstWhere(s.reduceTasks, (t: ReduceTask) => ReduceEligible(t, cutoff));
      if i < |s.reduceTasks| then
        var t := s.reduceTasks[i];
        Outcome(s.(reduceTasks := s.reduceTasks[i := t.(startTime := AssignedAt(now))]),
                TaskResponse(Reduce, t.id, t.files, 0))
      else Outcome(s, Bare(Sleep))
    else Outcome(s, Bare(Exit))
  }

  /** One whole GetTask call: commit, then assign. */
  function GetTaskStep(s: State, req: TaskRequest, now: int): Outcome
    requires RequestInBounds(s, req)
  {
    AssignTask(CommitReport(s, req), now)
  }

  // ---------------------------------------------------------------------
  // The invariant
  // ---------------------------------------------------------------------

  lemma CommitPreservesInv(s: State, req: TaskRequest)
    requires Inv(s) && RequestInBounds(s, req)
    ensures Inv(CommitReport(s, req))
  {
    var n := CommitReport(s, req);
    match req.kind
    case Map =>
      if !s.mapTasks[req.id].done {
        CountWhereUpdate(s.mapTasks, req.id, s.mapTasks[req.id].(done := true), MapPending);
        CountWhereSame(s.reduceTasks, n.reduceTasks, ReducePending);
      }
    case Reduce =>
      if !s.reduceTasks[req.id].done {
        CountWhereUpdate(s.reduceTasks, req.id, s.reduceTasks[req.id].(done := true), ReducePending);
      }
    case _ =>
  }

  /** Stamping one task with a new startTime leaves its done flag and id,
      so the invariant survives. */
  lemma MapStampKeepsInv(s: State, i: nat, now: int)
    requires Inv(s) && i < |s.mapTasks|
    ensures Inv(s.(mapTasks := s.mapTasks[i := s.mapTasks[i].(startTime := AssignedAt(now))]))
  {
    CountWhereUpdate(s.mapTasks, i, s.mapTasks[i].(startTime := AssignedAt(now)), MapPending);
  }

  lemma ReduceStampKeepsInv(s: State, i: nat, now: int)
    requires Inv(s) && i < |s.reduceTasks|
    ensures Inv(s.(reduceTasks := s.reduceTasks[i := s.reduceTasks[i].(startTime := AssignedAt(now))]))
  {
    CountWhereUpdate(s.reduceTasks, i, s.reduceTasks[i].(startTime := AssignedAt(now)), ReducePending);
  }

  lemma AssignPreservesInv(s: State, now: int)
    requires Inv(s)
    ensures Inv(AssignTask(s, now).next)
  {
    var o := AssignTask(s, now);
    AssignPhases(s, now);
    if o.response.kind == Map {
      AssignMapTask(s, now);
      MapStampKeepsInv(s, o.response.id, now);
    } else if o.response.kind == Reduce {
      AssignReduceTask(s, now);
      ReduceStampKeepsInv(s, o.response.id, now);
    }
  }

  /** Every GetTask call keeps the counters equal to the unfinished tasks. */
  lemma GetTaskPreservesInv(s: State, req: TaskRequest, now: int)
    requires Inv(s) && RequestInBounds(s, req)
    ensures Inv(GetTaskStep(s, req, now).next)
  {
    CommitPreservesInv(s, req);
    AssignPreservesInv(CommitReport(s, req), now);
  }

  // ---------------------------------------------------------------------
  // Commit properties
  // ---------------------------------------------------------------------

  /** The report names a task already done, or is not a Map or Reduce report. */
  predicate StaleReport(s: State, req: TaskRequest)
    requires RequestInBounds(s, req)
  {
    match req.kind
    case Map => s.mapTasks[req.id].done
    case Reduce => s.reduceTasks[req.id].done
    case _ => true
  }

  /** A report for a finished task, or of kind None, Sleep or Exit, commits nothing. */
  lemma StaleReportCommitsNothing(s: State, req: TaskRequest)
    requires RequestInBounds(s, req)
    ensures StaleReport(s, req) <==> CommitReport(s, req) == s
  {
    if !StaleReport(s, req) {
      match req.kind
      case Map =>
        assert CommitReport(s, req).mapTasks[req.id].done;
      case Reduce =>
        assert CommitReport(s, req).reduceTasks[req.id].done;
    }
  }

  /** A first-time map report marks the task done, decrements mapRemain,
      and appends bucket file r to reduce task r exactly when that entry
      is non-empty, touching no other field. */
  lemma FirstMapReport(s: State, req: TaskRequest)
    requires RequestInBounds(s, req) && req.kind == Map && !s.mapTasks[req.id].done
    ensures var n := CommitReport(s, req);
      && n.mapTasks == s.mapTasks[req.id := s.mapTasks[req.id].(done := true)]
      && n.mapRemain == s.mapRemain - 1 && n.reduceRemain == s.reduceRemain
      && |n.reduceTasks| == |s.reduceTasks|
      && forall r :: 0 <= r < |s.reduceTasks| ==>
           && n.reduceTasks[r].id == s.reduceTasks[r].id
           && n.reduceTasks[r].startTime == s.reduceTasks[r].startTime
           && n.reduceTasks[r].done == s.reduceTasks[r].done
           && n.reduceTasks[r].files == s.reduceTasks[r].files +
                (if r < |req.files| && req.files[r] != [] then [req.files[r]] else [])
  {
  }

  /** A first-time reduce report marks that task done and decrements reduceRemain. */
  lemma FirstReduceReport(s: State, req: TaskRequest)
    requires RequestInBounds(s, req) && req.kind == Reduce && !s.reduceTasks[req.id].done
    ensures var n := CommitReport(s, req);
      && n.mapTasks == s.mapTasks && n.mapRemain == s.mapRemain
      && n.reduceTasks == s.reduceTasks[req.id := s.reduceTasks[req.id].(done := true)]
      && n.reduceRemain == s.reduceRemain - 1
  {
  }

  /** Committing the same report twice is committing it once. */
  lemma CommitIdempotent(s: State, req: TaskRequest)
    requires RequestInBounds(s, req)
    ensures RequestInBounds(CommitReport(s, req), req)
    ensures CommitReport(CommitReport(s, req), req) == CommitReport(s, req)
  {
    var n := CommitReport(s, req);
    assert StaleReport(n, req);
    StaleReportCommitsNothing(n, req);
  }

  /** The commit phase leaves every startTime as it was. */
  lemma CommitKeepsStamps(s: State, req: TaskRequest)
    requires RequestInBounds(s, req)
    ensures var n := CommitReport(s, req);
      && |n.mapTasks| == |s.mapTasks| && |n.reduceTasks| == |s.reduceTasks|
      && (forall i :: 0 <= i < |s.mapTasks| ==> n.mapTasks[i].startTime == s.mapTasks[i].startTime)
      && (forall i :: 0 <= i < |s.reduceTasks| ==> n.reduceTasks[i].startTime == s.reduceTasks[i].startTime)
  {
  }

  // ---------------------------------------------------------------------
  // Assignment properties
  // ---------------------------------------------------------------------

  /** Phase ordering and termination: Map only while map tasks remain,
      Reduce only once none does, Exit exactly when both counters are
      zero; Sleep and Exit change nothing. */
  lemma AssignPhases(s: State, now: int)
    requires Inv(s)
    ensures var o := AssignTask(s, now);
      && o.response.kind in {Map, Reduce, Sleep, Exit}
      && (o.response.kind == Map ==> s.mapRemain > 0)
      && (o.response.kind == Reduce ==> s.mapRemain == 0 && s.reduceRemain > 0)
      && (o.response.kind == Exit <==> s.mapRemain == 0 && s.reduceRemain == 0)
      && (o.response.kind == Exit <==> AllDone(s))
      && (o.response.kind in {Sleep, Exit} ==> o.next == s && o.response == Bare(o.response.kind))
  {
    RemainZeroIffDone(s);
  }

  /** Sleep is the answer exactly when the current phase has unfinished
      tasks but every one of them was handed out too recently. */
  lemma AssignSleeps(s: State, now: int)
    requires Inv(s)
    ensures AssignTask(s, now).response.kind == Sleep <==>
      || (s.mapRemain > 0 &&
          forall i :: 0 <= i < |s.mapTasks| ==> !MapEligible(s.mapTasks[i], now - Timeout))
      || (s.mapRemain == 0 && s.reduceRemain > 0 &&
          forall i :: 0 <= i < |s.reduceTasks| ==> !ReduceEligible(s.reduceTasks[i], now - Timeout))
  {
    RemainZeroIffDone(s);
  }

  /** A Map answer hands out the lowest-index eligible map task, stamps it
      with `now` and changes nothing else; the response carries its id, its
      input file and the number of reduce tasks. */
  lemma AssignMapTask(s: State, now: int)
    requires Inv(s) && AssignTask(s, now).response.kind == Map
    ensures var o := AssignTask(s, now); var i := o.response.id;
      && 0 <= i < |s.mapTasks|
      && MapEligible(s.mapTasks[i], now - Timeout)
      && (forall j :: 0 <= j < i ==> !MapEligible(s.mapTasks[j], now - Timeout))
      && o.next == s.(mapTasks := s.mapTasks[i := s.mapTasks[i].(startTime := AssignedAt(now))])
      && o.response == TaskResponse(Map, i, [s.mapTasks[i].file], |s.reduceTasks|)
  {
  }

  /** A Reduce answer hands out the lowest-index eligible reduce task,
      stamps it with `now` and changes nothing else; the response carries
      its id and every bucket file committed for it so far. */
  lemma AssignReduceTask(s: State, now: int)
    requires Inv(s) && AssignTask(s, now).response.kind == Reduce
    ensures var o := AssignTask(s, now); var i := o.response.id;
      && 0 <= i < |s.reduceTasks|
      && ReduceEligible(s.reduceTasks[i], now - Timeout)
      && (forall j :: 0 <= j < i ==> !ReduceEligible(s.reduceTasks[j], now - Timeout))
      && o.next == s.(reduceTasks := s.reduceTasks[i := s.reduceTasks[i].(startTime := AssignedAt(now))])
      && o.response == TaskResponse(Reduce, i, s.reduceTasks[i].files, 0)
  {
  }

  /** Once a map task's lease has run out, the next call hands out a map
      task, and none later than it in index order. */
  lemma MapOfferedAfterTimeout(s: State, now: int, i: int)
    requires Inv(s) && 0 <= i < |s.mapTasks|
    requires MapEligible(s.mapTasks[i], now - Timeout)
    ensures AssignTask(s, now).response.kind == Map
    ensures AssignTask(s, now).response.id <= i
  {
    RemainZeroIffDone(s);
  }

  /** Once the map phase is over and a reduce task's lease has run out,
      the next call hands out a reduce task, and none later than it. */
  lemma ReduceOfferedAfterTimeout(s: State, now: int, i: int)
    requires Inv(s) && s.mapRemain == 0 && 0 <= i < |s.reduceTasks|
    requires ReduceEligible(s.reduceTasks[i], now - Timeout)
    ensures AssignTask(s, now).response.kind == Reduce
    ensures AssignTask(s, now).response.id <= i
  {
    RemainZeroIffDone(s);
  }

  /** A map task stamped at t keeps its lease through one call at any time
      up to t + Timeout: that call does not hand it out, whatever it
      reports, and leaves the stamp in place. */
  lemma MapLeaseHeld(s: State, req: TaskRequest, i: nat, t: int, now: int)
    requires Inv(s) && RequestInBounds(s, req) && i < |s.mapTasks|
    requires s.mapTasks[i].startTime == AssignedAt(t) && now <= t + Timeout
    ensures var o := GetTaskStep(s, req, now);
      && !(o.response.kind == Map && o.response.id == i)
      && Inv(o.next) && |o.next.mapTasks| == |s.mapTasks|
      && o.next.mapTasks[i].startTime == AssignedAt(t)
  {
    var c := CommitReport(s, req);
    CommitPreservesInv(s, req);
    CommitKeepsStamps(s, req);
    GetTaskPreservesInv(s, req, now);
    AssignPhases(c, now);
    var kind := AssignTask(c, now).response.kind;
    if kind == Map {
      AssignMapTask(c, now);
    } else if kind == Reduce {
      AssignReduceTask(c, now);
    }
  }

  /** The same for a reduce task stamped at t. */
  lemma ReduceLeaseHeld(s: State, req: TaskRequest, i: nat, t: int, now: int)
    requires Inv(s) && RequestInBounds(s, req) && i < |s.reduceTasks|
    requires s.reduceTasks[i].startTime == AssignedAt(t) && now <= t + Timeout
    ensures var o := GetTaskStep(s, req, now);
      && !(o.response.kind == Reduce && o.response.id == i)
      && Inv(o.next) && |o.next.reduceTasks| == |s.reduceTasks|
      && o.next.reduceTasks[i].startTime == AssignedAt(t)
  {
    var c := CommitReport(s, req);
    CommitPreservesInv(s, req);
    CommitKeepsStamps(s, req);
    GetTaskPreservesInv(s, req, now);
    AssignPhases(c, now);
    var kind := AssignTask(c, now).response.kind;
    if kind == Map {
      AssignMapTask(c, now);
    } else if kind == Reduce {
      AssignReduceTask(c, now);
    }
  }

  /** One GetTask call: its report and its clock reading. */
  datatype Call = Call(req: TaskRequest, now: int)

  /** Every call of the sequence passes its own bounds checks, each on the
      state the calls before it leave. */
  predicate Admissible(s: State, calls: seq<Call>)
    decreases |calls|
  {
    || calls == []
    || (&& RequestInBounds(s, calls[0].req)
        && Admissible(GetTaskStep(s, calls[0].req, calls[0].now).next, calls[1..]))
  }

  /** The responses of a sequence of calls, in call order. */
  function Responses(s: State, calls: seq<Call>): (rs: seq<TaskResponse>)
    requires Admissible(s, calls)
    ensures |rs| == |calls|
    decreases |calls|
  {
    if calls == [] then []
    else
      var o := GetTaskStep(s, calls[0].req, calls[0].now);
      [o.response] + Responses(o.next, calls[1..])
  }

  /** No call at a time up to t + Timeout hands out a map task stamped at t. */
  lemma {:induction false} MapNotReoffered(s: State, calls: seq<Call>, i: nat, t: int)
    requires Inv(s) && Admissible(s, calls) && i < |s.mapTasks|
    requires s.mapTasks[i].startTime == AssignedAt(t)
    requires forall k :: 0 <= k < |calls| ==> calls[k].now <= t + Timeout
    ensures forall k :: 0 <= k < |calls| ==>
              !(Responses(s, calls)[k].kind == Map && Responses(s, calls)[k].id == i)
    decreases |calls|
  {
    if calls != [] {
      MapLeaseHeld(s, calls[0].req, i, t, calls[0].now);
      var n := GetTaskStep(s, calls[0].req, calls[0].now).next;
      MapNotReoffered(n, calls[1..], i, t);
      assert forall k :: 1 <= k < |calls| ==> Responses(s, calls)[k] == Responses(n, calls[1..])[k - 1];
    }
  }

  /** No call at a time up to t + Timeout hands out a reduce task stamped at t. */
  lemma {:induction false} ReduceNotReoffered(s: State, calls: seq<Call>, i: nat, t: int)
    requires Inv(s) && Admissible(s, calls) && i < |s.reduceTasks|
    requires s.reduceTasks[i].startTime == AssignedAt(t)
    requires forall k :: 0 <= k < |calls| ==> calls[k].now <= t + Timeout
    ensures forall k :: 0 <= k < |calls| ==>
              !(Responses(s, calls)[k].kind == Reduce && Responses(s, calls)[k].id == i)
    decreases |calls|
  {
    if calls != [] {
      ReduceLeaseHeld(s, calls[0].req, i, t, calls[0].now);
      var n := GetTaskStep(s, calls[0].req, calls[0].now).next;
      ReduceNotReoffered(n, calls[1..], i, t);
      assert forall k :: 1 <= k < |calls| ==> Responses(s, calls)[k] == Responses(n, calls[1..])[k - 1];
    }
  }

  /** A task handed out at time t is not handed out again by any of the
      calls that follow, as long as each comes at a time up to t + Timeout,
      whatever they report. */
  lemma NotReofferedWithinTimeout(s: State, req: TaskRequest, t: int, calls: seq<Call>)
    requires Inv(s) && RequestInBounds(s, req)
    requires GetTaskStep(s, req, t).response.kind in {Map, Reduce}
    requires Admissible(GetTaskStep(s, req, t).next, calls)
    requires forall k :: 0 <= k < |calls| ==> calls[k].now <= t + Timeout
    ensures var o := GetTaskStep(s, req, t);
            var rs := Responses(o.next, calls);
            forall k :: 0 <= k < |rs| ==> !(rs[k].kind == o.response.kind && rs[k].id == o.response.id)
  {
    var c := CommitReport(s, req);
    CommitPreservesInv(s, req);
    GetTaskPreservesInv(s, req, t);
    var o := AssignTask(c, t);
    if o.response.kind == Map {
      AssignMapTask(c, t);
      MapNotReoffered(o.next, calls, o.response.id, t);
    } else {
      AssignPhases(c, t);
      AssignReduceTask(c, t);
      ReduceNotReoffered(o.next, calls, o.response.id, t);
    }
  }

  // ---------------------------------------------------------------------
  // Whole calls
  // ---------------------------------------------------------------------

  /** n has made at least the progress of s: no task became undone, no
      counter grew, and the reduce tasks' file lists only grew. */
  predicate Progressed(s: State, n: State) {
    && |n.mapTasks| == |s.mapTasks| && |n.reduceTasks| == |s.reduceTasks|
    && (forall i :: 0 <= i < |s.mapTasks| && s.mapTasks[i].done ==> n.mapTasks[i].done)
    && (forall i :: 0 <= i < |s.reduceTasks| && s.reduceTasks[i].done ==> n.reduceTasks[i].done)
    && (forall i :: 0 <= i < |s.reduceTasks| ==> s.reduceTasks[i].files <= n.reduceTasks[i].files)
    && n.mapRemain <= s.mapRemain && n.reduceRemain <= s.reduceRemain
  }

  lemma CommitProgresses(s: State, req: TaskRequest)
    requires RequestInBounds(s, req)
    ensures Progressed(s, CommitReport(s, req))
  {
  }

  lemma AssignProgresses(s: State, now: int)
    ensures Progressed(s, AssignTask(s, now).next)
    ensures AssignTask(s, now).next.mapRemain == s.mapRemain
    ensures AssignTask(s, now).next.reduceRemain == s.reduceRemain
  {
  }

  /** Progress is monotone: no task becomes undone, no counter grows, the
      reduce tasks' file lists only grow, and a finished job stays finished. */
  lemma GetTaskMonotone(s: State, req: TaskRequest, now: int)
    requires RequestInBounds(s, req)
    ensures Progressed(s, GetTaskStep(s, req, now).next)
    ensures AllDone(s) ==> AllDone(GetTaskStep(s, req, now).next)
  {
    var c := CommitReport(s, req);
    CommitProgresses(s, req);
    AssignProgresses(c, now);
    var n := AssignTask(c, now).next;
    assert forall i :: 0 <= i < |s.reduceTasks| ==> s.reduceTasks[i].files <= c.reduceTasks[i].files <= n.reduceTasks[i].files;
  }

  /** The state a sequence of calls leaves behind. */
  function After(s: State, calls: seq<Call>): State
    requires Admissible(s, calls)
    decreases |calls|
  {
    if calls == [] then s else After(GetTaskStep(s, calls[0].req, calls[0].now).next, calls[1..])
  }

  /** A report the coordinator can accept stays acceptable after one more
      call, and a report that has become stale stays stale. */
  lemma StepKeepsReport(s: State, c: Call, req: TaskRequest)
    requires RequestInBounds(s, c.req) && RequestInBounds(s, req)
    ensures RequestInBounds(GetTaskStep(s, c.req, c.now).next, req)
    ensures StaleReport(s, req) ==> StaleReport(GetTaskStep(s, c.req, c.now).next, req)
  {
    GetTaskMonotone(s, c.req, c.now);
  }

  /** The same over any admissible sequence of calls. */
  lemma {:induction false} CallsKeepReport(s: State, calls: seq<Call>, req: TaskRequest)
    requires Admissible(s, calls) && RequestInBounds(s, req)
    ensures RequestInBounds(After(s, calls), req)
    ensures StaleReport(s, req) ==> StaleReport(After(s, calls), req)
    decreases |calls|
  {
    if calls != [] {
      StepKeepsReport(s, calls[0], req);
      CallsKeepReport(GetTaskStep(s, calls[0].req, calls[0].now).next, calls[1..], req);
    }
  }

  /** Once a call has served a report, every later report for the same task
      (a duplicate, or a straggler whose lease ran out, with any file list)
      is accepted and commits nothing, however many calls come between. */
  lemma RepeatedReportIsNoOp(s: State, req: TaskRequest, now: int, calls: seq<Call>, late: TaskRequest)
    requires RequestInBounds(s, req)
    requires Admissible(GetTaskStep(s, req, now).next, calls)
    requires late.kind == req.kind && late.id == req.id
    ensures var n := After(GetTaskStep(s, req, now).next, calls);
            RequestInBounds(n, late) && CommitReport(n, late) == n
  {
    var o := GetTaskStep(s, req, now).next;
    assert RequestInBounds(o, late) && StaleReport(o, late);
    CallsKeepReport(o, calls, late);
    StaleReportCommitsNothing(After(o, calls), late);
  }

  /** Exit is answered exactly when every task is done once this call's
      report is committed. */
  lemma ExitIffAllDone(s: State, req: TaskRequest, now: int)
    requires Inv(s) && RequestInBounds(s, req)
    ensures GetTaskStep(s, req, now).response.kind == Exit <==> AllDone(CommitReport(s, req))
  {
    CommitPreservesInv(s, req);
    AssignPhases(CommitReport(s, req), now);
  }

  /** A report that a worker builds from a response (same id, one file per
      bucket for Map) is accepted by whichever later call brings it. */
  lemma ResponseReportInBounds(s: State, req: TaskRequest, now: int, calls: seq<Call>, files: seq<GoString>)
    requires Inv(s) && RequestInBounds(s, req)
    requires GetTaskStep(s, req, now).response.kind in {Map, Reduce}
    requires GetTaskStep(s, req, now).response.kind == Map ==>
               |files| == GetTaskStep(s, req, now).response.nReduce
    requires Admissible(GetTaskStep(s, req, now).next, calls)
    ensures var o := GetTaskStep(s, req, now);
            RequestInBounds(After(o.next, calls), TaskRequest(o.response.kind, o.response.id, files))
  {
    var c := CommitReport(s, req);
    var o := GetTaskStep(s, req, now);
    CommitPreservesInv(s, req);
    AssignPhases(c, now);
    if o.response.kind == Map {
      AssignMapTask(c, now);
    } else {
      AssignReduceTask(c, now);
    }
    CallsKeepReport(o.next, calls, TaskRequest(o.response.kind, o.response.id, files));
  }

  // ---------------------------------------------------------------------
  // The coordinator object
  // ---------------------------------------------------------------------

  class Coordinator {
    const mapTasks: array<MapTask>
    const reduceTasks: array<ReduceTask>
    var mapRemain: int
    var reduceRemain: int

    /** The coordinator's state as a value. */
    ghost function Model(): State
      reads this, mapTasks, reduceTasks
    {
      State(mapTasks[..], reduceTasks[..], mapRemain, reduceRemain)
    }

    ghost predicate Valid()
      reads this, mapTasks, reduceTasks
    {
      Inv(Model())
    }

    /** MakeCoordinator, without starting the RPC server. */
    constructor (files: seq<GoString>, nReduce: nat)
      ensures Valid() && Model() == Initial(files, nReduce)
      ensures fresh(mapTasks) && fresh(reduceTasks)
    {
      var mt := new MapTask[|files|];
      var i := 0;
      while i < |files|
        invariant 0 <= i <= |files|
        invariant forall k :: 0 <= k < i ==> mt[k] == MapTask(k, files[k], Unassigned, false)
      {
        mt[i] := MapTask(i, files[i], Unassigned, false);
        i := i + 1;
      }
      var rt := new ReduceTask[nReduce];
      i := 0;
      while i < nReduce
        invariant 0 <= i <= nReduce
        invariant forall k :: 0 <= k < i ==> rt[k] == ReduceTask(k, [], Unassigned, false)
        invariant forall k :: 0 <= k < |files| ==> mt[k] == MapTask(k, files[k], Unassigned, false)
      {
        rt[i] := ReduceTask(i, [], Unassigned, false);
        i := i + 1;
      }
      mapTasks, reduceTasks := mt, rt;
      mapRemain, reduceRemain := |files|, nReduce;
      new;
      assert mapTasks[..] == Initial(files, nReduce).mapTasks;
      assert reduceTasks[..] == Initial(files, nReduce).reduceTasks;
      InitialInv(files, nReduce);
    }

    /** The job is finished: true exactly when every task has been reported done. */
    function Done(): (d: bool)
      reads this, mapTasks, reduceTasks
      requires Valid()
      ensures d <==> AllDone(Model())
    {
      RemainZeroIffDone(Model());
      mapRemain == 0 && reduceRemain == 0
    }

    /** The commit phase of GetTask. */
    method RecordReport(request: TaskRequest)
      requires RequestInBounds(Model(), request)
      modifies this, mapTasks, reduceTasks
      ensures Model() == CommitReport(old(Model()), request)
    {
      match request.kind
      case Map =>
        if !mapTasks[request.id].done {
          mapTasks[request.id] := mapTasks[request.id].(done := true);
          ghost var stamped := mapTasks[..];
          var r := 0;
          while r < |request.files|
            invariant 0 <= r <= |request.files|
            invariant mapTasks[..] == stamped
            invariant mapRemain == old(mapRemain) && reduceRemain == old(reduceRemain)
            invariant forall k :: 0 <= k < reduceTasks.Length ==>
                        reduceTasks[k] == if k < r then WithReport(old(reduceTasks[k]), request.files, k)
                                          else old(reduceTasks[k])
          {
            if |request.files[r]| > 0 {
              reduceTasks[r] := reduceTasks[r].(files := reduceTasks[r].files + [request.files[r]]);
            }
            r := r + 1;
          }
          mapRemain := mapRemain - 1;
          assert reduceTasks[..] == CommitReport(old(Model()), request).reduceTasks;
        }
      case Reduce =>
        if !reduceTasks[request.id].done {
          reduceTasks[request.id] := reduceTasks[request.id].(done := true);
          reduceRemain := reduceRemain - 1;
        }
      case _ =>
    }

    /** The assignment phase of GetTask. */
    method HandOut(now: int) returns (response: TaskResponse)
      modifies mapTasks, reduceTasks
      ensures Outcome(Model(), response) == AssignTask(old(Model()), now)
    {
      var timeoutAgo := now - Timeout;
      if mapRemain > 0 {
        var idx := 0;
        while idx < mapTasks.Length
          invariant 0 <= idx <= mapTasks.Length
          invariant forall k :: 0 <= k < idx ==> !MapEligible(mapTasks[k], timeoutAgo)
        {
          var task := mapTasks[idx];
          if !task.done && Before(task.startTime, timeoutAgo) {
            response := TaskResponse(Map, task.id, [task.file], reduceTasks.Length);
            mapTasks[idx] := task.(startTime := AssignedAt(now));
            assert idx == FirstWhere(old(mapTasks[..]), (t: MapTask) => MapEligible(t, timeoutAgo));
            return;
          }
          idx := idx + 1;
        }
        response := Bare(Sleep);
      } else if reduceRemain > 0 {
        var idx := 0;
        while idx < reduceTasks.Length
          invariant 0 <= idx <= reduceTasks.Length
          invariant forall k :: 0 <= k < idx ==> !ReduceEligible(reduceTasks[k], timeoutAgo)
        {
          var task := reduceTasks[idx];
          if !task.done && Before(task.startTime, timeoutAgo) {
            response := TaskResponse(Reduce, task.id, task.files, 0);
            reduceTasks[idx] := task.(startTime := AssignedAt(now));
            assert idx == FirstWhere(old(reduceTasks[..]), (t: ReduceTask) => ReduceEligible(t, timeoutAgo));
            return;
          }
          idx := idx + 1;
        }
        response := Bare(Sleep);
      } else {
        response := Bare(Exit);
      }
    }

    /** The RPC handler: commit the report, then hand out the next task,
        as one atomic step. */
    method GetTask(request: TaskRequest, now: int) returns (response: TaskResponse)
      requires Valid() && RequestInBounds(Model(), request)
      modifies this, mapTasks, reduceTasks
      ensures Valid()
      ensures Outcome(Model(), response) == GetTaskStep(old(Model()), request, now)
    {
      RecordReport(request);
      response := HandOut(now);
      GetTaskPreservesInv(old(Model()), request, now);
    }
  }
}
