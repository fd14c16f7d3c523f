/** Fairness of the i386 scheduler: its ready queue is the cyclic list of ready slots, and a slot
    ready at sixteen consecutive selections is selected among them. */
module TaskFairness32 {
  import opened MachineWords
  import opened Wrappers
  import H = HeapMachine
  import RR = RoundRobin
  import opened Tasks32
  import opened TaskStacks32
  import opened TaskCalls32
  import opened TaskRepair32
  import opened TaskRuns32

  // ----- the ready queue

  /** The queue from place `d` on lists exactly the ready slots at least `d` places ahead,
      nearest first, each with its own id. */
  ghost predicate Lists(q: seq<Queued>, tasks: seq<Task>, cursor: nat, clock: nat, d: nat)
    requires cursor < |tasks|
  {
    && (forall k :: 0 <= k < |q| ==> Names(q[k], tasks, clock) && d <= Ahead(q[k], tasks, cursor))
    && (forall j, k :: 0 <= j < k < |q| ==> Ahead(q[j], tasks, cursor) < Ahead(q[k], tasks, cursor))
    && (forall i :: 0 <= i < |tasks| && IsReady(tasks[i], clock) && d <= RR.Distance(cursor, i, |tasks|) ==>
          Queued(i, tasks[i].id) in q)
  }

  /** A ready slot with its id. */
  predicate Names(e: Queued, tasks: seq<Task>, clock: nat) {
    e.slot < |tasks| && IsReady(tasks[e.slot], clock) && e.id == tasks[e.slot].id
  }

  /** How far the slot lies ahead of the cursor. */
  function Ahead(e: Queued, tasks: seq<Task>, cursor: nat): int {
    if cursor < |tasks| && e.slot < |tasks| then RR.Distance(cursor, e.slot, |tasks|) else -1
  }

  lemma {:induction false} QueueExact(tasks: seq<Task>, cursor: nat, clock: nat, d: nat)
    requires cursor < |tasks| && d <= |tasks|
    ensures Lists(ReadyQueue(tasks, cursor, clock, d), tasks, cursor, clock, d)
    decreases |tasks| - d
  {
    hide Lists, IsReady;
    if d < |tasks| {
      QueueExact(tasks, cursor, clock, d + 1);
      var rest := ReadyQueue(tasks, cursor, clock, d + 1);
      ListsOneMore(rest, tasks, cursor, clock, d);
      assert [] + rest == rest;
    } else {
      ListsNone(tasks, cursor, clock);
    }
  }

  lemma ListsNone(tasks: seq<Task>, cursor: nat, clock: nat)
    requires cursor < |tasks|
    ensures Lists([], tasks, cursor, clock, |tasks|)
  {
    hide IsReady;
  }

  lemma OnlyAt(cursor: nat, k: nat, d: nat, n: nat)
    requires cursor < n && k < n && d < n
    ensures RR.Distance(cursor, RR.At(cursor, d, n), n) == d
    ensures RR.Distance(cursor, k, n) == d ==> k == RR.At(cursor, d, n)
  {
  }

  lemma HereNamed(tasks: seq<Task>, cursor: nat, clock: nat, d: nat)
    requires cursor < |tasks| && d < |tasks|
    ensures var i := RR.At(cursor, d, |tasks|);
      && Ahead(Queued(i, tasks[i].id), tasks, cursor) == d
      && (IsReady(tasks[i], clock) ==> Names(Queued(i, tasks[i].id), tasks, clock))
  {
    hide IsReady;
    OnlyAt(cursor, RR.At(cursor, d, |tasks|), d, |tasks|);
  }

  lemma ListsOneMore(q: seq<Queued>, tasks: seq<Task>, cursor: nat, clock: nat, d: nat)
    requires cursor < |tasks| && d < |tasks| && Lists(q, tasks, cursor, clock, d + 1)
    ensures var i := RR.At(cursor, d, |tasks|);
      Lists(if IsReady(tasks[i], clock) then [Queued(i, tasks[i].id)] + q else q, tasks, cursor, clock, d)
  {
    hide IsReady, RR.Distance, RR.At, Ahead, Names;
    var n := |tasks|;
    var i := RR.At(cursor, d, n);
    var e := Queued(i, tasks[i].id);
    var all := if IsReady(tasks[i], clock) then [e] + q else q;
    OnlyAt(cursor, i, d, n);
    assert Ahead(e, tasks, cursor) == d
      && (IsReady(tasks[i], clock) ==> Names(e, tasks, clock)) by { HereNamed(tasks, cursor, clock, d); }
    forall k | 0 <= k < n && IsReady(tasks[k], clock) && d <= RR.Distance(cursor, k, n)
      ensures Queued(k, tasks[k].id) in all
    {
      OnlyAt(cursor, k, d, n);
      if k != i {
        assert Queued(k, tasks[k].id) in q;
      }
    }
  }

  /** Its head is the round-robin selection. */
  lemma {:induction false} HeadIsSelection(tasks: seq<Task>, cursor: nat, clock: nat, d: nat)
    requires cursor < |tasks| && d <= |tasks|
    ensures var q := ReadyQueue(tasks, cursor, clock, d);
      RR.SelectFrom(ReadyBits(tasks, clock), cursor, d) == if q == [] then None else Some(q[0].slot)
    decreases |tasks| - d
  {
    hide IsReady;
    if d < |tasks| {
      HeadIsSelection(tasks, cursor, clock, d + 1);
    }
  }

  // ----- selections over a run

  /** Which slots a `run_pending` from this state finds ready. */
  function ReadyNow(s: State): seq<bool> { ReadyBits(WakeScan(s.tasks, s.clock), s.clock) }

  /** The slot a `run_pending` from this state selects. */
  function SelectedNow(s: State): Option<nat>
    requires s.cursor < |s.tasks|
  {
    RR.Select(ReadyNow(s), s.cursor)
  }

  lemma PendingSelects(s: State)
    requires s.initialized && |s.tasks| == MAX_TASKS && s.cursor < MAX_TASKS && RunPending(s).Some?
    ensures match SelectedNow(s)
      case None => RunPending(s).value.cursor == s.cursor && RunPending(s).value.queue == []
      case Some(i) => i < MAX_TASKS && RunPending(s).value.cursor == RR.Next(i, MAX_TASKS)
  {
    hide IsReady, WakeScan, ReadyQueue, Validates, H.Kfree;
    HeadIsSelection(WakeScan(s.tasks, s.clock), s.cursor, s.clock, 0);
    RR.SelectsReady(ReadyNow(s), s.cursor, 0);
  }

  lemma OthersKeepCursor(s: State, op: Op)
    requires Good(s) && H.Valid(s.heap) && |s.tasks| == MAX_TASKS && Allowed(s, op) && Step(s, op).Some?
      && !op.RunReady?
    ensures Step(s, op).value.cursor == s.cursor && Step(s, op).value.initialized == s.initialized
  {
    hide H.Valid, StacksOk, Holders, CallInv, FindTask, FindAvailable, WakeScan, Validates, H.Kfree, H.Kmalloc, H.Step;
    match op {
      case ClearEnded => StackClear(s, 0);
      case Fix => StackRepair(s, 0);
      case _ =>
    }
  }

  lemma PendingKeepsReady(s: State)
    requires s.tasks != [] && RunPending(s).Some?
    ensures RunPending(s).value.initialized == s.initialized
  {
    hide WakeScan, ReadyQueue, Validates, H.Kfree;
  }

  /** The readiness vectors met by the `run_pending` steps of a run, and the slots selected. */
  ghost function History(s: State, ops: seq<Op>, t: State): (r: (seq<seq<bool>>, seq<Option<nat>>))
    requires Good(s) && Reaches(s, ops, t)
    ensures |r.0| == |r.1| && forall h :: h in r.0 ==> |h| == MAX_TASKS
    decreases |ops|
  {
    hide Inv, CallInv, Step, Allowed, WakeScan, ReadyBits;
    InvShape(s);
    if ops == [] then ([], [])
    else
      StepGood(s, ops[0]);
      var rest := History(Step(s, ops[0]).value, ops[1..], t);
      if ops[0].RunReady? then ([ReadyNow(s)] + rest.0, [SelectedNow(s)] + rest.1) else rest
  }

  /** Over a run the selections are those of round robin. */
  lemma {:induction false} RunSelections(s: State, ops: seq<Op>, t: State)
    requires Good(s) && s.initialized && Reaches(s, ops, t)
    ensures History(s, ops, t).1 == RR.Selections(History(s, ops, t).0, s.cursor, MAX_TASKS)
    decreases |ops|
  {
    hide Inv, CallInv, Step, Allowed, WakeScan, ReadyBits, RunPending;
    InvShape(s);
    if ops != [] {
      StepGood(s, ops[0]);
      var u := Step(s, ops[0]).value;
      if ops[0].RunReady? {
        assert Step(s, RunReady) == RunPending(s) by { StepRuns(s); }
        PendingSelects(s);
        PendingKeepsReady(s);
      } else {
        OthersKeepCursor(s, ops[0]);
      }
      RunSelections(u, ops[1..], t);
      var rest := History(u, ops[1..], t);
      assert ops[0].RunReady? ==> ([ReadyNow(s)] + rest.0)[1..] == rest.0;
    }
  }

  lemma StepRuns(s: State)
    requires H.Valid(s.heap) && |s.tasks| == MAX_TASKS
    ensures Step(s, RunReady) == RunPending(s)
  {
  }

  /** No starvation: over any run with sixteen `run_pending` steps and anything in between, a
      slot found ready at every one of them is selected by one of them. */
  lemma NoStarvation(s: State, ops: seq<Op>, t: State, k: nat)
    requires Good(s) && s.initialized && Reaches(s, ops, t) && k < MAX_TASKS
    requires |History(s, ops, t).0| == MAX_TASKS && forall h :: h in History(s, ops, t).0 ==> |h| == MAX_TASKS && h[k]
    ensures Some(k) in History(s, ops, t).1
  {
    hide Inv, CallInv, History, Reaches;
    RunSelections(s, ops, t);
    RR.BoundedBypass(History(s, ops, t).0, s.cursor, MAX_TASKS, k);
  }

  // ----- the audit of a running scheduler

  lemma GoodSlotIssues(t: Task)
    requires TaskOk(t)
    ensures SlotIssues(t) == if t.used && Overslept(t) then 1 else 0
  {
  }

  /** What the audit's two kinds of findings come down to in a state in good order. */
  lemma AuditFindings(s: State)
    requires Good(s) && InTable(s.current, s.tasks) && InTable(s.switched, s.tasks)
    ensures Audit(s) == 0 <==>
      (forall i :: 0 <= i < |s.tasks| && s.tasks[i].used ==> !Overslept(s.tasks[i])) &&
      (forall k :: 0 <= k < |s.queue| ==> !Stale(s.tasks, s.queue[k]))
  {
    hide H.Valid, StacksOk, Holders, CallInv, Overslept, Stale, SlotIssues;
    forall i | 0 <= i < |s.tasks|
      ensures SlotIssues(s.tasks[i]) == if s.tasks[i].used && Overslept(s.tasks[i]) then 1 else 0
    {
      GoodSlotIssues(s.tasks[i]);
    }
    CleanTable(s.tasks, 0);
    CleanQueue(s.tasks, s.queue, 0);
  }

  /** The steps that write the ready queue. */
  predicate WritesQueue(op: Op) { op.RunReady? || op.ClearEnded? || op.Fix? }

  /** A creation that gets as far as filling slot `i`, whether or not it then gets a stack. */
  predicate Fills(s: State, op: Op, i: nat) {
    && op.NewTask? && s.initialized && op.entry != 0 && (op.oneshot || op.interval != 0)
    && FindAvailable(s.tasks) == Some(i)
  }

  /** Some creation of the run fills slot `i`. */
  ghost predicate Refilled(s: State, ops: seq<Op>, t: State, i: nat)
    requires Good(s) && Reaches(s, ops, t)
    decreases |ops|
  {
    hide Inv, CallInv, Step, Allowed, Fills;
    InvShape(s);
    if ops == [] then false
    else
      StepGood(s, ops[0]);
      Fills(s, ops[0], i) || Refilled(Step(s, ops[0]).value, ops[1..], t, i)
  }

  /** Steps other than those keep the queue; a slot keeps its id unless it is filled, and then it
      is left empty or under an id never used before. */
  lemma StepIds(s: State, op: Op, i: nat)
    requires Good(s) && H.Valid(s.heap) && |s.tasks| == MAX_TASKS && i < |s.tasks|
    requires Allowed(s, op) && Step(s, op).Some? && !WritesQueue(op)
    ensures var u := Step(s, op).value;
      && u.queue == s.queue && |u.tasks| == |s.tasks| && s.nextId <= u.nextId
      && if Fills(s, op, i) then !u.tasks[i].used || u.tasks[i].id == s.nextId < u.nextId
         else u.tasks[i].used == s.tasks[i].used && u.tasks[i].id == s.tasks[i].id
  {
    hide H.Valid, StacksOk, Holders, CallInv, FindTask, FindAvailable, Validates, H.Kfree, H.Kmalloc, H.Step, Due;
  }

  lemma KnownId(s: State, i: nat)
    requires CallInv(s) && i < |s.tasks| && s.tasks[i].used
    ensures s.tasks[i].id < s.nextId
  {
    assert SlotCalls(s.tasks[i], s.calls, s.clock, s.nextId);
  }

  /** Once a slot named in the queue was filled again, its entry stays stale. */
  lemma {:induction false} StaysStale(s: State, ops: seq<Op>, t: State, q: Queued)
    requires Good(s) && Reaches(s, ops, t) && forall k :: 0 <= k < |ops| ==> !WritesQueue(ops[k])
    requires q.slot < |s.tasks| && q.id < s.nextId && (!s.tasks[q.slot].used || s.tasks[q.slot].id > q.id)
    ensures t.queue == s.queue && Stale(t.tasks, q)
    decreases |ops|
  {
    hide Inv, CallInv, Step, Allowed, Fills, WritesQueue;
    InvShape(s);
    if ops != [] {
      StepGood(s, ops[0]);
      assert !WritesQueue(ops[0]);
      StepIds(s, ops[0], q.slot);
      LaterSteps(ops);
      StaysStale(Step(s, ops[0]).value, ops[1..], t, q);
    }
  }

  lemma LaterSteps(ops: seq<Op>)
    requires ops != [] && forall k :: 0 <= k < |ops| ==> !WritesQueue(ops[k])
    ensures forall k :: 0 <= k < |ops[1..]| ==> !WritesQueue(ops[1..][k])
  {
    hide WritesQueue;
  }

  /** Between two writings of the queue an entry becomes stale exactly when its slot is filled. */
  lemma {:induction false} StaleExactly(s: State, ops: seq<Op>, t: State, q: Queued)
    requires Good(s) && Reaches(s, ops, t) && forall k :: 0 <= k < |ops| ==> !WritesQueue(ops[k])
    requires !Stale(s.tasks, q)
    ensures t.queue == s.queue && (Stale(t.tasks, q) <==> Refilled(s, ops, t, q.slot))
    decreases |ops|
  {
    hide Inv, CallInv, Step, Allowed, Fills, WritesQueue;
    InvShape(s);
    if ops != [] {
      StepGood(s, ops[0]);
      assert !WritesQueue(ops[0]);
      StepIds(s, ops[0], q.slot);
      KnownId(s, q.slot);
      LaterSteps(ops);
      if Fills(s, ops[0], q.slot) {
        StaysStale(Step(s, ops[0]).value, ops[1..], t, q);
      } else {
        StaleExactly(Step(s, ops[0]).value, ops[1..], t, q);
      }
    }
  }

  lemma {:induction false} QueueKept(s: State, ops: seq<Op>, t: State)
    requires Good(s) && Reaches(s, ops, t) && forall k :: 0 <= k < |ops| ==> !WritesQueue(ops[k])
    ensures t.queue == s.queue
    decreases |ops|
  {
    hide Inv, CallInv, Step, Allowed, Fills, WritesQueue;
    InvShape(s);
    if ops != [] {
      StepGood(s, ops[0]);
      assert !WritesQueue(ops[0]);
      StepIds(s, ops[0], 0);
      LaterSteps(ops);
      QueueKept(Step(s, ops[0]).value, ops[1..], t);
    }
  }

  /** A step that writes the queue leaves no stale entry in it. */
  lemma FreshQueue(s: State, op: Op)
    requires Good(s) && H.Valid(s.heap) && |s.tasks| == MAX_TASKS && s.initialized
    requires Allowed(s, op) && Step(s, op).Some? && WritesQueue(op)
    ensures var u := Step(s, op).value; forall k :: 0 <= k < |u.queue| ==> !Stale(u.tasks, u.queue[k])
  {
    hide H.Valid, StacksOk, Holders, CallInv, ReadyQueue, Validates, H.Kfree, ClearFrom, RepairFrom, WakeScan;
    if op.RunReady? {
      QueueExact(WakeScan(s.tasks, s.clock), s.cursor % |s.tasks|, s.clock, 0);
    }
  }

  /** Since the queue was last written, by `run_pending`, clearing or repair: the audit reports
      nothing exactly when no task sleeps until a tick that is zero in 32 bits and no slot the
      queue names was filled again. */
  lemma AuditExactly(s: State, op: Op, ops: seq<Op>, t: State)
    requires Good(s) && H.Valid(s.heap) && |s.tasks| == MAX_TASKS && s.initialized
    requires Allowed(s, op) && Step(s, op).Some? && WritesQueue(op) && Good(Step(s, op).value)
    requires Reaches(Step(s, op).value, ops, t) && forall k :: 0 <= k < |ops| ==> !WritesQueue(ops[k])
    requires InTable(t.current, t.tasks) && InTable(t.switched, t.tasks)
    ensures var u := Step(s, op).value;
      && Good(t) && t.queue == u.queue
      && (Audit(t) == 0 <==>
            (forall i :: 0 <= i < |t.tasks| && t.tasks[i].used && t.tasks[i].life == Sleeping ==>
              t.tasks[i].wakeAt % U32 != 0)
            && forall k :: 0 <= k < |u.queue| ==> !Refilled(u, ops, t, u.queue[k].slot))
  {
    hide Good, Step, Allowed, Reaches, WritesQueue, Refilled, Stale;
    var u := Step(s, op).value;
    RunGood(u, ops, t);
    QueueKept(u, ops, t);
    FreshQueue(s, op);
    forall k | 0 <= k < |u.queue| ensures Stale(t.tasks, u.queue[k]) <==> Refilled(u, ops, t, u.queue[k].slot) {
      StaleExactly(u, ops, t, u.queue[k]);
    }
    AuditFindings(t);
  }
}
