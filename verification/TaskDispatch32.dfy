/** From fields to dispatch: which tasks of the i386 scheduler are queued, what `run_pending` does
    to the one it selects, and that a task whose time has come is run. */
module TaskDispatch32 {
  import opened MachineWords
  import opened Wrappers
  import H = HeapMachine
  import RR = RoundRobin
  import opened Tasks32
  import opened TaskStacks32
  import opened TaskCalls32
  import opened TaskRepair32
  import opened TaskRuns32
  import opened TaskFairness32
  import opened TaskEffects32

  // ----- what is queued

  /** Its time has come, and a recurring task's less than 2^32 ticks after its last run. */
  predicate InTime(t: Task, clock: nat) { Ripe(t, clock) && (t.oneshot || clock < t.lastAt + U32) }

  /** The table after the wake scan is in good order too, and active slots are as before. */
  lemma ScanGood(s: State)
    requires Good(s)
    ensures Good(s.(tasks := WakeScan(s.tasks, s.clock)))
    ensures forall k :: 0 <= k < |s.tasks| && s.tasks[k].life == Active ==>
      WakeScan(s.tasks, s.clock)[k] == s.tasks[k]
  {
    hide Inv, CallInv, Due;
    WakeScanKeeps(s, s.clock);
    CallWakeScan(s, s.clock);
    assert s.(clock := s.clock) == s;
  }

  /** In every state in good order the rebuilt queue holds exactly the tasks whose time has come,
      as far as 32 bits of the ticks since their last run show it: every task in time, that is,
      and nothing whose time has not come. */
  lemma QueuedExactly(s: State)
    requires Good(s)
    ensures var q := ReadyQueue(s.tasks, s.cursor, s.clock, 0);
      && (forall k :: 0 <= k < |s.tasks| && InTime(s.tasks[k], s.clock) ==> Queued(k, s.tasks[k].id) in q)
      && (forall e :: e in q <==>
            && e.slot < |s.tasks| && e.id == s.tasks[e.slot].id
            && Ripe(s.tasks[e.slot], s.clock) && Shows(s.tasks[e.slot], s.clock))
  {
    hide Inv, CallInv, IsReady, ReadyQueue, Shows, Ripe;
    assert |s.tasks| == MAX_TASKS by { InvShape(s); }
    QueueExact(s.tasks, s.cursor, s.clock, 0);
    var q := ReadyQueue(s.tasks, s.cursor, s.clock, 0);
    forall k | 0 <= k < |s.tasks|
      ensures IsReady(s.tasks[k], s.clock) <==> Ripe(s.tasks[k], s.clock) && Shows(s.tasks[k], s.clock)
      ensures InTime(s.tasks[k], s.clock) ==> IsReady(s.tasks[k], s.clock)
    {
      ReadySlot(s, k);
    }
    forall e ensures e in q <==>
        && e.slot < |s.tasks| && e.id == s.tasks[e.slot].id
        && Ripe(s.tasks[e.slot], s.clock) && Shows(s.tasks[e.slot], s.clock)
    {
      if e in q {
        assert Names(e, s.tasks, s.clock);
      } else if e.slot < |s.tasks| && e.id == s.tasks[e.slot].id {
        assert e == Queued(e.slot, s.tasks[e.slot].id);
      }
    }
  }

  /** A recurring task's ticks since its last run, in 32 bits, reach its interval. */
  predicate Shows(t: Task, clock: nat) { t.oneshot || (t.lastAt <= clock && (clock - t.lastAt) % U32 >= t.interval) }

  lemma ReadySlot(s: State, k: nat)
    requires CallInv(s) && k < |s.tasks|
    ensures IsReady(s.tasks[k], s.clock) <==> Ripe(s.tasks[k], s.clock) && Shows(s.tasks[k], s.clock)
    ensures InTime(s.tasks[k], s.clock) ==> IsReady(s.tasks[k], s.clock)
  {
    hide CallInv;
    if s.tasks[k].used {
      LastRunPast(s, k);
      ReadyExactly(s.tasks[k], s.clock);
    }
  }

  lemma ReadyUsed(t: Task, clock: nat)
    requires IsReady(t, clock)
    ensures t.used && t.life == Active
  {
  }

  // ----- what `run_pending` does

  /** The state in which `run_pending` enters slot `i`: sleepers that are due woken, the queue
      rebuilt, the cursor past the slot. */
  function Chosen(s: State, i: nat): State
    requires s.cursor < |s.tasks|
  {
    var w := WakeScan(s.tasks, s.clock);
    s.(tasks := w, queue := ReadyQueue(w, s.cursor, s.clock, 0), cursor := (i + 1) % |s.tasks|)
  }

  lemma ChosenGood(s: State, i: nat)
    requires Good(s) && s.cursor < |s.tasks| && i < |s.tasks|
    ensures Good(Chosen(s, i))
  {
    hide Inv, CallInv, WakeScan, ReadyQueue;
    assert |s.tasks| == MAX_TASKS by { InvShape(s); }
    ScanGood(s);
    var w := s.(tasks := WakeScan(s.tasks, s.clock));
    SameParts(w, Chosen(s, i));
    SameCalls(w, Chosen(s, i));
  }

  /** `run_pending` wakes the sleepers that are due and enters the body of the first task whose
      time has come at or after the cursor, on record as a pending call; the cursor moves past
      it. With none, only the sleepers change. */
  lemma PendingExactly(s: State)
    requires Good(s) && s.initialized && |s.tasks| == MAX_TASKS
    ensures match SelectedNow(s)
      case None => RunPending(s) == Some(s.(tasks := WakeScan(s.tasks, s.clock), queue := []))
      case Some(i) =>
        && i < |s.tasks|
        && var c := Chosen(s, i);
        && Ripe(c.tasks[i], s.clock)
        && (RunPending(s).Some? <==> !c.tasks[i].oneshot || H.Freeable(s.heap, c.tasks[i].base))
        && (RunPending(s).Some? ==> EnteredIn(c, RunPending(s).value, i, true))
  {
    hide Inv, CallInv, WakeScan, ReadyQueue, IsReady, Trampoline, EnteredIn, H.Freeable, Ripe;
    var w := WakeScan(s.tasks, s.clock);
    assert s.cursor % |s.tasks| == s.cursor;
    HeadIsSelection(w, s.cursor, s.clock, 0);
    RR.SelectsReady(ReadyNow(s), s.cursor, 0);
    if SelectedNow(s).Some? {
      var i := SelectedNow(s).value;
      ChosenGood(s, i);
      ReadyUsed(w[i], s.clock);
      LastRunPast(Chosen(s, i), i);
      ReadyExactly(w[i], s.clock);
      EntersBody(Chosen(s, i), i, true);
    }
  }

  // ----- calls over a run

  /** The body of the task with this id was entered since there were `n` calls on record. */
  ghost predicate CalledSince(n: nat, calls: seq<Call>, id: nat) {
    exists j :: n <= j < |calls| && calls[j].id == id
  }

  lemma StillCalled(n: nat, calls: seq<Call>, later: seq<Call>, id: nat)
    requires CalledSince(n, calls, id) && calls <= later
    ensures CalledSince(n, later, id)
  {
    var j :| n <= j < |calls| && calls[j].id == id;
    assert later[j] == calls[j];
  }

  /** No step takes a call off the record. */
  lemma CallsGrow(s: State, op: Op)
    requires Good(s) && H.Valid(s.heap) && |s.tasks| == MAX_TASKS && Allowed(s, op) && Step(s, op).Some?
    ensures s.calls <= Step(s, op).value.calls
  {
    hide H.Valid, StacksOk, Holders, CallInv, FindTask, FindAvailable, WakeScan, ReadyQueue, Validates, H.Kfree,
      H.Kmalloc, H.Step;
    match op {
      case ClearEnded => StackClear(s, 0);
      case Fix => StackRepair(s, 0);
      case _ =>
    }
  }

  /** How many of the steps are `run_pending`. */
  function Pendings(ops: seq<Op>): nat {
    if ops == [] then 0 else (if ops[0].RunReady? then 1 else 0) + Pendings(ops[1..])
  }

  /** At every `run_pending` of the run the task with this id is in slot `k` and in time, or its
      body was entered since there were `n` calls. */
  ghost predicate Waits(s: State, ops: seq<Op>, t: State, k: nat, id: nat, n: nat)
    requires Good(s) && Reaches(s, ops, t)
    decreases |ops|
  {
    hide Inv, CallInv, Step, Allowed, InTime, CalledSince;
    InvShape(s);
    if ops == [] then true
    else
      StepGood(s, ops[0]);
      && (ops[0].RunReady? ==> (Holds(s, k, id) && InTime(s.tasks[k], s.clock)) || CalledSince(n, s.calls, id))
      && Waits(Step(s, ops[0]).value, ops[1..], t, k, id, n)
  }

  /** One `run_pending` enters a task in time or brings the cursor closer to it. */
  lemma PendingServes(s: State, k: nat, id: nat)
    requires Good(s) && s.initialized && |s.tasks| == MAX_TASKS && s.cursor < MAX_TASKS && RunPending(s).Some?
    requires Holds(s, k, id) && InTime(s.tasks[k], s.clock)
    ensures var u := RunPending(s).value;
      || CalledSince(|s.calls|, u.calls, id)
      || (u.cursor < MAX_TASKS && RR.Distance(u.cursor, k, MAX_TASKS) < RR.Distance(s.cursor, k, MAX_TASKS)
          && |u.tasks| == |s.tasks| && u.tasks[k] == s.tasks[k])
  {
    hide Inv, CallInv, WakeScan, ReadyQueue, IsReady, RunPending, H.Freeable, CalledSince, RR.Select, RR.Distance;
    ScanGood(s);
    ReadyExactly(s.tasks[k], s.clock);
    RR.Closer(ReadyNow(s), s.cursor, k);
    PendingExactly(s);
    PendingSelects(s);
    var i := SelectedNow(s).value;
    var u := RunPending(s).value;
    if i == k {
      LastCalled(s.calls, u.calls, id);
    }
  }

  lemma LastCalled(calls: seq<Call>, later: seq<Call>, id: nat)
    requires |later| == |calls| + 1 && later[|calls|].id == id
    ensures CalledSince(|calls|, later, id)
  {
  }

  /** A task that waits at each of more `run_pending` steps than it lies ahead of the cursor is
      entered by one of them. */
  lemma {:induction false} WaitingServed(s: State, ops: seq<Op>, t: State, k: nat, id: nat, n: nat)
    requires Good(s) && s.initialized && Reaches(s, ops, t) && k < MAX_TASKS && n <= |s.calls|
    requires Waits(s, ops, t, k, id, n)
    requires Pendings(ops) > RR.Distance(s.cursor, k, MAX_TASKS) || CalledSince(n, s.calls, id)
    ensures CalledSince(n, t.calls, id) && s.calls <= t.calls
    decreases |ops|
  {
    hide Inv, CallInv, Step, Allowed, InTime, CalledSince, RunPending, RR.Distance, Holds;
    InvShape(s);
    if ops != [] {
      StepGood(s, ops[0]);
      var u := Step(s, ops[0]).value;
      CallsGrow(s, ops[0]);
      if CalledSince(n, s.calls, id) {
        StillCalled(n, s.calls, u.calls, id);
      }
      if ops[0].RunReady? {
        assert Step(s, RunReady) == RunPending(s) by { StepRuns(s); }
        PendingKeepsReady(s);
        if !CalledSince(n, s.calls, id) {
          PendingServes(s, k, id);
          if CalledSince(|s.calls|, u.calls, id) {
            CalledEarlier(n, |s.calls|, u.calls, id);
          }
        }
      } else {
        OthersKeepCursor(s, ops[0]);
      }
      WaitingServed(u, ops[1..], t, k, id, n);
    }
  }

  lemma CalledEarlier(n: nat, m: nat, calls: seq<Call>, id: nat)
    requires n <= m && CalledSince(m, calls, id)
    ensures CalledSince(n, calls, id)
  {
  }

  /** Over any run with sixteen `run_pending` steps and anything in between, a task in time at
      each of them, until it is run, is run. */
  lemma Dispatched(s: State, ops: seq<Op>, t: State, k: nat, id: nat)
    requires Good(s) && s.initialized && Reaches(s, ops, t) && k < MAX_TASKS
    requires Pendings(ops) >= MAX_TASKS && Waits(s, ops, t, k, id, |s.calls|)
    ensures exists j :: |s.calls| <= j < |t.calls| && t.calls[j].id == id
  {
    hide Inv, CallInv, Reaches, Waits, Pendings;
    WaitingServed(s, ops, t, k, id, |s.calls|);
  }

  // ----- waiting, from what the run does

  /** Not a stop, a sleep or a yield of this task. */
  predicate Spares(op: Op, id: nat) { op != Stop(id) && op != YieldOf(id) && (op.SleepFor? ==> op.id != id) }

  /** An active task that a step spares is run by it or left as it is. */
  lemma StepSpares(s: State, op: Op, k: nat, id: nat)
    requires Good(s) && H.Valid(s.heap) && |s.tasks| == MAX_TASKS && Allowed(s, op) && Step(s, op).Some?
    requires !op.RunReady? && !op.RunTask? && Spares(op, id) && Holds(s, k, id) && s.tasks[k].life == Active
    ensures var u := Step(s, op).value; |u.tasks| == |s.tasks| && u.tasks[k] == s.tasks[k]
  {
    hide H.Valid, StacksOk, Holders, CallInv, FindTask, FindAvailable, Due, Validates, H.Kfree, H.Kmalloc, H.Step,
      ClearFrom, RepairFrom, WakeScan, RunPending, RunNow, Create;
    match op {
      case NewTask(oneshot, interval, entry) => CreateSpares(s, oneshot, interval, entry, k);
      case ClearEnded => ClearedFrom(s, 0);
      case Fix => StackRepair(s, 0);
      case Tick => ScanSpares(s.tasks, s.clock + 1, k);
      case WakeUp(i) => WakeExactly(s, i);
      case _ =>
    }
  }

  lemma CreateSpares(s: State, oneshot: bool, interval: nat, entry: nat, k: nat)
    requires H.Valid(s.heap) && k < |s.tasks| && s.tasks[k].used && s.tasks[k].life == Active
    requires Create(s, oneshot, interval, entry).Some?
    ensures var u := Create(s, oneshot, interval, entry).value.0; |u.tasks| == |s.tasks| && u.tasks[k] == s.tasks[k]
  {
    hide H.Valid, FindAvailable, Validates, H.Kfree, H.Kmalloc;
  }

  lemma ScanSpares(tasks: seq<Task>, clock: nat, k: nat)
    requires k < |tasks| && tasks[k].life == Active
    ensures WakeScan(tasks, clock)[k] == tasks[k]
  {
    hide Due;
  }

  /** The same for running tasks by name. */
  lemma RunSpares(s: State, i: nat, k: nat, id: nat)
    requires Good(s) && RunNow(s, i).Some? && Holds(s, k, id) && s.tasks[k].life == Active
    ensures var u := RunNow(s, i).value;
      || CalledSince(|s.calls|, u.calls, id)
      || (|u.tasks| == |s.tasks| && u.tasks[k] == s.tasks[k])
  {
    hide Good, RunNow, H.Freeable, CalledSince;
    RunNowExactly(s, i);
    var u := RunNow(s, i).value;
    if i == id {
      LastCalled(s.calls, u.calls, id);
    } else if !Unknown(s, i) {
      var m :| 0 <= m < |s.tasks| && Holds(s, m, i);
    }
  }

  /** A task in time now, spared by the run, waits through it. */
  lemma {:induction false} SparedWaits(s: State, ops: seq<Op>, t: State, k: nat, id: nat, n: nat)
    requires Good(s) && s.initialized && Reaches(s, ops, t) && n <= |s.calls|
    requires forall j :: 0 <= j < |ops| ==> Spares(ops[j], id)
    requires
      || CalledSince(n, s.calls, id)
      || (Holds(s, k, id) && Ripe(s.tasks[k], s.clock) && (s.tasks[k].oneshot || t.clock < s.tasks[k].lastAt + U32))
    ensures Waits(s, ops, t, k, id, n)
    decreases |ops|
  {
    hide Inv, CallInv, Step, Allowed, CalledSince, RunPending, RunNow, RR.Distance, Spares;
    InvShape(s);
    if ops != [] {
      StepGood(s, ops[0]);
      var u := Step(s, ops[0]).value;
      CallsGrow(s, ops[0]);
      RunClock(s, ops, t);
      ClockNeverBack(s, ops[0]);
      assert Spares(ops[0], id);
      assert forall j :: 0 <= j < |ops[1..]| ==> ops[1..][j] == ops[j + 1];
      if CalledSince(n, s.calls, id) {
        StillCalled(n, s.calls, u.calls, id);
      } else {
        SparedStep(s, ops[0], k, id);
        if CalledSince(|s.calls|, u.calls, id) {
          CalledEarlier(n, |s.calls|, u.calls, id);
        }
      }
      if ops[0].RunReady? {
        assert Step(s, RunReady) == RunPending(s) by { StepRuns(s); }
        PendingKeepsReady(s);
      } else {
        OthersKeepCursor(s, ops[0]);
      }
      SparedWaits(u, ops[1..], t, k, id, n);
    }
  }

  lemma SparedStep(s: State, op: Op, k: nat, id: nat)
    requires Good(s) && s.initialized && H.Valid(s.heap) && |s.tasks| == MAX_TASKS && Allowed(s, op)
    requires Step(s, op).Some? && Spares(op, id)
    requires Holds(s, k, id) && InTime(s.tasks[k], s.clock)
    ensures var u := Step(s, op).value;
      || CalledSince(|s.calls|, u.calls, id)
      || (|u.tasks| == |s.tasks| && u.tasks[k] == s.tasks[k])
  {
    hide Inv, CallInv, Allowed, CalledSince, RunPending, RunNow, Spares, Create, Disable, Sleep, Wake, Yield, WakeScan,
      H.Step, ClearFrom, RepairFrom;
    match op {
      case RunReady => PendingServes(s, k, id);
      case RunTask(i) => RunSpares(s, i, k, id);
      case _ => StepSpares(s, op, k, id);
    }
  }

  /** A task whose time has come is run: over any run with sixteen `run_pending` steps that does
      not stop it, put it to sleep or yield for it, and that for a recurring task ends less than
      2^32 ticks after its last run, its body is entered. */
  lemma RipeRuns(s: State, ops: seq<Op>, t: State, k: nat)
    requires Good(s) && s.initialized && Reaches(s, ops, t) && k < |s.tasks| && Ripe(s.tasks[k], s.clock)
    requires s.tasks[k].oneshot || t.clock < s.tasks[k].lastAt + U32
    requires forall j :: 0 <= j < |ops| ==> Spares(ops[j], s.tasks[k].id)
    requires Pendings(ops) >= MAX_TASKS
    ensures exists j :: |s.calls| <= j < |t.calls| && t.calls[j].id == s.tasks[k].id
  {
    hide Inv, CallInv, Reaches, Waits, Pendings, Spares;
    assert |s.tasks| == MAX_TASKS by { InvShape(s); }
    SparedWaits(s, ops, t, k, s.tasks[k].id, |s.calls|);
    Dispatched(s, ops, t, k, s.tasks[k].id);
  }
}
