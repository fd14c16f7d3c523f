/** The i386 scheduler as it runs: its table, ready queue and counters updated in
    place, each operation refining its function of the whole state. A failed kernel assertion
    halts the machine; methods that can fail one report whether they are still running. */
module Scheduler32 {
  import opened MachineWords
  import opened Wrappers
  import H = HeapMachine
  import RR = RoundRobin
  import opened Tasks32
  import opened TaskStacks32
  import opened TaskCalls32
  import opened TaskRepair32
  import opened TaskRuns32

  class Scheduler {
    var initialized: bool
    const tasks: array<Task>
    var cursor: nat
    var queue: seq<Queued>
    var nextId: nat
    var heap: H.State
    var taken: nat
    var given: nat
    var clock: nat
    var current: Option<nat>
    var switched: Option<nat>
    ghost var calls: seq<Call>

    ghost function Snapshot(): State
      reads this, tasks
    {
      State(initialized, tasks[..], cursor, queue, nextId, heap, taken, given, clock, calls, current, switched)
    }

    ghost predicate Shaped() reads this {
      tasks.Length == MAX_TASKS && H.Valid(heap)
    }

    ghost predicate Valid() reads this, tasks {
      Good(Snapshot())
    }

    /** `scheduler_initialize`. */
    constructor (kernelHeap: H.State, now: nat)
      requires H.Valid(kernelHeap)
      ensures Valid() && Shaped() && fresh(tasks) && heap == kernelHeap && clock == now && calls == []
      ensures forall i :: 0 <= i < MAX_TASKS ==> tasks[i] == BLANK
    {
      hide H.Valid;
      tasks := new Task[MAX_TASKS](_ => BLANK);
      initialized, cursor, queue, nextId, heap := true, 0, [], 1, kernelHeap;
      taken, given, clock, current, switched := 0, 0, now, None, None;
      calls := [];
      new;
      assert tasks[..] == seq(MAX_TASKS, _ => BLANK);
      InitialGood(kernelHeap, now);
    }

    // ----- searching

    /** `scheduler_find_available_slot`. */
    method FindAvailableSlot() returns (r: Option<nat>)
      ensures r == FindAvailable(tasks[..])
    {
      for i := 0 to tasks.Length
        invariant FindAvailable(tasks[..]) == FindAvailable(tasks[..], i)
      {
        if Available(tasks[i]) {
          return Some(i);
        }
      }
      return None;
    }

    /** `scheduler_find_task_by_id_mutable`. */
    method FindTaskById(id: nat) returns (r: Option<nat>)
      ensures r == FindTask(tasks[..], id)
    {
      for i := 0 to tasks.Length
        invariant FindTask(tasks[..], id) == FindTask(tasks[..], id, i)
      {
        if tasks[i].used && tasks[i].id == id {
          return Some(i);
        }
      }
      return None;
    }

    // ----- kernel stacks

    /** `scheduler_free_kernel_stack`. */
    method FreeKernelStack(i: nat) returns (running: bool)
      requires i < tasks.Length
      modifies this`heap, this`given, tasks
      ensures FreeStack(old(Snapshot()), i) == if running then Some(Snapshot()) else None
    {
      hide Validates, H.Kfree;
      if tasks[i].base == 0 {
        return true;
      }
      if !Validates(heap, tasks[i].base) {
        return false;
      }
      heap := H.Kfree(heap, tasks[i].base);
      tasks[i] := tasks[i].(base := 0, size := 0, top := 0);
      given := given + 1;
      return true;
    }

    /** `scheduler_allocate_kernel_stack`. */
    method AllocateKernelStack(i: nat) returns (ok: bool)
      requires Shaped() && i < tasks.Length
      modifies this`heap, this`taken, tasks
      ensures (Snapshot(), ok) == TakeStack(old(Snapshot()), i)
    {
      hide H.Valid, H.Kmalloc;
      var k := H.Kmalloc(heap, STACK_BYTES);
      heap := k.state;
      if k.pointer == 0 {
        return false;
      }
      // The kernel asserts this.
      assert Validates(heap, k.pointer) by { TakenValidates(old(heap)); }
      tasks[i] := tasks[i].(base := k.pointer, size := STACK_BYTES, top := (k.pointer + STACK_BYTES) % U32);
      taken := taken + 1;
      return true;
    }

    // ----- creating and disabling

    /** `scheduler_create_task_internal_unlocked`; id 0 stands for failure. */
    method CreateTask(oneshot: bool, interval: nat, entry: nat) returns (running: bool, id: nat)
      requires Shaped()
      modifies this, tasks
      ensures Create(old(Snapshot()), oneshot, interval, entry) == if running then Some((Snapshot(), id)) else None
      ensures old(Valid()) && running ==> Valid()
    {
      hide H.Valid, FreeStack, TakeStack, FindAvailable, Good;
      if Good(Snapshot()) {
        CreateStays(Snapshot(), oneshot, interval, entry);
      }
      if !initialized || entry == 0 || (!oneshot && interval == 0) {
        return true, 0;
      }
      var slot := FindAvailableSlot();
      if slot.None? {
        return true, 0;
      }
      var i := slot.value;
      H.KfreeExact(heap, tasks[i].base);
      ghost var s := Snapshot();
      running := FreeKernelStack(i);
      if !running {
        return false, 0;
      }
      assert H.Valid(heap) by { FreedValid(s, i); }
      ghost var f := Snapshot();
      var t := BLANK.(used := true, id := nextId, life := Active, oneshot := oneshot, interval := interval,
        lastAt := clock, entry := entry);
      assert f.nextId == s.nextId && f.clock == s.clock by { FreedFields(s, i); }
      tasks[i] := t;
      assert Snapshot() == f.(tasks := f.tasks[i := t]);
      var ok := AllocateKernelStack(i);
      if !ok {
        tasks[i] := BLANK;
        return true, 0;
      }
      id := nextId;
      nextId := nextId + 1;
    }

    /** `scheduler_disable_task_unlocked`. */
    method DisableTask(id: nat) returns (running: bool)
      modifies this`heap, this`given, tasks
      ensures Disable(old(Snapshot()), id) == if running then Some(Snapshot()) else None
      ensures old(Valid()) && running ==> Valid()
    {
      hide FreeStack, FindTask, Good;
      if Good(Snapshot()) {
        StepStaysGood(Snapshot(), Stop(id));
      }
      var slot := FindTaskById(id);
      if slot.None? || (tasks[slot.value].life != Active && tasks[slot.value].life != Running) {
        return true;
      }
      ghost var s := Snapshot();
      tasks[slot.value] := tasks[slot.value].(life := Disabled);
      assert Snapshot() == s.(tasks := s.tasks[slot.value := s.tasks[slot.value].(life := Disabled)]);
      running := FreeKernelStack(slot.value);
    }

    // ----- sleeping, waking, yielding

    /** `scheduler_sleep_task_unlocked`. */
    method SleepTask(id: nat, ticks: nat) returns (ok: bool)
      modifies tasks
      ensures Snapshot() == Sleep(old(Snapshot()), id, ticks)
      ensures old(Valid()) ==> Valid()
    {
      hide FindTask, Good;
      if Good(Snapshot()) {
        StepStaysGood(Snapshot(), SleepFor(id, ticks));
      }
      var slot := FindTaskById(id);
      if slot.None? || ticks == 0 || tasks[slot.value].life != Active {
        return false;
      }
      tasks[slot.value] := tasks[slot.value].(life := Sleeping, wakeAt := clock + ticks);
      return true;
    }

    /** `scheduler_wake_task_unlocked`. */
    method WakeTask(id: nat) returns (ok: bool)
      modifies tasks
      ensures Snapshot() == Wake(old(Snapshot()), id)
      ensures old(Valid()) ==> Valid()
    {
      hide FindTask, Good;
      if Good(Snapshot()) {
        StepStaysGood(Snapshot(), WakeUp(id));
      }
      var slot := FindTaskById(id);
      if slot.None? || tasks[slot.value].life != Sleeping {
        return false;
      }
      tasks[slot.value] := tasks[slot.value].(life := Active, wakeAt := 0);
      return true;
    }

    /** `scheduler_yield_task_unlocked`. */
    method YieldTask(id: nat) returns (ok: bool)
      modifies tasks
      ensures Snapshot() == Yield(old(Snapshot()), id)
      ensures old(Valid()) ==> Valid()
    {
      hide FindTask, Good;
      if Good(Snapshot()) {
        StepStaysGood(Snapshot(), YieldOf(id));
      }
      var slot := FindTaskById(id);
      if slot.None? || (tasks[slot.value].life != Active && tasks[slot.value].life != Running) {
        return false;
      }
      tasks[slot.value] := tasks[slot.value].(lastAt := clock);
      return true;
    }

    /** `scheduler_wake_sleeping_tasks`. */
    method WakeSleepingTasks(now: nat)
      modifies tasks
      ensures Snapshot() == old(Snapshot()).(tasks := WakeScan(old(tasks[..]), now))
    {
      hide Due;
      for i := 0 to tasks.Length
        invariant forall k :: 0 <= k < tasks.Length ==>
          tasks[k] == if k < i then Woken(old(tasks[k]), now) else old(tasks[k])
      {
        if tasks[i].used && tasks[i].life == Sleeping && Due(now, tasks[i].wakeAt) {
          tasks[i] := tasks[i].(life := Active, wakeAt := 0);
        }
      }
    }

    // ----- running

    /** `scheduler_task_trampoline`: enters the body, which is recorded, not modelled. */
    method RunTrampoline(i: nat, ghost pending: bool) returns (running: bool)
      requires i < tasks.Length
      modifies this`heap, this`given, this`calls, tasks
      ensures Trampoline(old(Snapshot()), i, pending) == if running then Some(Snapshot()) else None
    {
      hide FreeStack;
      var t := tasks[i];
      if t.entry == 0 {
        return true;
      }
      ghost var s := Snapshot();
      tasks[i] := t.(life := Running);
      calls := calls + [Call(t.id, clock, pending, t.oneshot, t.interval)];
      tasks[i] := tasks[i].(runs := t.runs + 1);
      if t.oneshot {
        tasks[i] := tasks[i].(life := Completed);
        assert Snapshot() == s.(calls := calls, tasks := s.tasks[i := t.(life := Completed, runs := t.runs + 1)]);
        running := FreeKernelStack(i);
      } else {
        tasks[i] := tasks[i].(life := Active);
        assert Snapshot() == s.(calls := calls, tasks := s.tasks[i := t.(life := Active, runs := t.runs + 1)]);
        running := true;
      }
    }

    /** `scheduler_run_task_now_unlocked`. */
    method RunTaskNow(id: nat) returns (running: bool)
      modifies this`heap, this`given, this`calls, tasks
      ensures RunNow(old(Snapshot()), id) == if running then Some(Snapshot()) else None
      ensures old(Valid()) && running ==> Valid()
    {
      hide Trampoline, FindTask, Good;
      if Good(Snapshot()) {
        StepStaysGood(Snapshot(), RunTask(id));
      }
      var slot := FindTaskById(id);
      if slot.None? || tasks[slot.value].life != Active {
        return true;
      }
      ghost var s := Snapshot();
      tasks[slot.value] := tasks[slot.value].(lastAt := clock);
      assert Snapshot() == s.(tasks := s.tasks[slot.value := s.tasks[slot.value].(lastAt := s.clock)]);
      running := RunTrampoline(slot.value, false);
    }

    /** `scheduler_rebuild_ready_queue`: it never holds more than one entry per slot. */
    method RebuildReadyQueue()
      requires tasks.Length == MAX_TASKS
      modifies this`queue
      ensures queue == ReadyQueue(tasks[..], cursor % MAX_TASKS, clock, 0) && |queue| <= MAX_TASKS
    {
      hide IsReady, RR.At;
      queue := [];
      var start := cursor % MAX_TASKS;
      assert [] + ReadyQueue(tasks[..], start, clock, 0) == ReadyQueue(tasks[..], start, clock, 0);
      for attempts := 0 to MAX_TASKS
        invariant |queue| <= attempts
        invariant queue + ReadyQueue(tasks[..], start, clock, attempts) == ReadyQueue(tasks[..], start, clock, 0)
      {
        var index := (start + attempts) % MAX_TASKS;
        RR.AtIsModulo(start, attempts, MAX_TASKS);
        ghost var rest := ReadyQueue(tasks[..], start, clock, attempts + 1);
        if IsReady(tasks[index], clock) && |queue| < MAX_TASKS {
          assert queue + ([Queued(index, tasks[index].id)] + rest) == queue + [Queued(index, tasks[index].id)] + rest;
          queue := queue + [Queued(index, tasks[index].id)];
        } else {
          assert queue + ([] + rest) == queue + rest;
        }
      }
      assert queue + [] == queue;
    }

    /** `scheduler_run_pending_unlocked` with `scheduler_select_next_ready_task`. */
    method RunPendingTask() returns (running: bool)
      requires tasks.Length == MAX_TASKS
      modifies this`heap, this`given, this`calls, this`queue, this`cursor, tasks
      ensures RunPending(old(Snapshot())) == if running then Some(Snapshot()) else None
      ensures old(Valid()) && running ==> Valid()
    {
      hide Trampoline, ReadyQueue, WakeScan, Good;
      if Good(Snapshot()) {
        PendingStays(Snapshot());
      }
      if !initialized {
        return true;
      }
      ghost var s := Snapshot();
      WakeSleepingTasks(clock);
      ghost var woken := Snapshot();
      RebuildReadyQueue();
      if queue == [] {
        return true;
      }
      var i := queue[0].slot;
      if i >= MAX_TASKS {
        return true;
      }
      cursor := (i + 1) % MAX_TASKS;
      tasks[i] := tasks[i].(lastAt := clock);
      assert Snapshot() ==
        woken.(queue := queue, cursor := (i + 1) % MAX_TASKS,
          tasks := woken.tasks[i := woken.tasks[i].(lastAt := s.clock)]);
      running := RunTrampoline(i, true);
    }

    /** The timer interrupt and `scheduler_on_timer_tick`. */
    method OnTimerTick()
      modifies this`clock, tasks
      ensures Snapshot() == TimerTick(old(Snapshot()))
      ensures old(Valid()) ==> Valid()
    {
      hide WakeScan, Good;
      if Good(Snapshot()) {
        StepStaysGood(Snapshot(), Tick);
      }
      clock := clock + 1;
      if initialized {
        WakeSleepingTasks(clock);
      }
    }

    // ----- clearing, audit and repair

    /** `scheduler_clear_inactive_tasks_unlocked`. */
    method ClearInactiveTasks() returns (running: bool)
      requires tasks.Length == MAX_TASKS
      modifies this`heap, this`given, this`queue, this`cursor, tasks
      ensures ClearInactive(old(Snapshot())) == if running then Some(Snapshot()) else None
      ensures old(Valid()) && running ==> Valid()
    {
      hide FreeStack, Good;
      if Good(Snapshot()) {
        ClearStays(Snapshot());
      }
      ghost var s := Snapshot();
      for i := 0 to MAX_TASKS
        invariant ClearFrom(s, 0) == ClearFrom(Snapshot(), i)
      {
        if tasks[i].used && (tasks[i].life == Disabled || tasks[i].life == Completed) {
          var ok := FreeKernelStack(i);
          if !ok {
            return false;
          }
          ghost var f := Snapshot();
          tasks[i] := BLANK;
          assert Snapshot() == f.(tasks := f.tasks[i := BLANK]);
        }
      }
      if cursor >= MAX_TASKS {
        cursor := 0;
      }
      queue := [];
      return true;
    }

    /** `scheduler_audit_unlocked`. */
    method AuditTasks() returns (issues: nat)
      requires tasks.Length == MAX_TASKS
      ensures issues == Audit(Snapshot())
    {
      hide SlotIssues, Stale;
      issues := 0;
      for i := 0 to MAX_TASKS
        invariant TableIssues(tasks[..], 0) == issues + TableIssues(tasks[..], i)
      {
        issues := issues + SlotIssues(tasks[i]);
      }
      ghost var table := issues;
      for i := 0 to |queue|
        invariant QueueIssues(tasks[..], queue, 0) + table == issues + QueueIssues(tasks[..], queue, i)
      {
        if Stale(tasks[..], queue[i]) {
          issues := issues + 1;
        }
      }
      if !InTable(current, tasks[..]) {
        issues := issues + 1;
      }
      if !InTable(switched, tasks[..]) {
        issues := issues + 1;
      }
    }

    /** One slot of `scheduler_repair_unlocked`. */
    method RepairTask(i: nat) returns (running: bool, repaired: bool)
      requires i < tasks.Length
      modifies this`heap, this`given, tasks
      ensures RepairSlot(old(Snapshot()), i) == if running then Some(Snapshot()) else None
      ensures running ==> repaired == NeedsRepair(old(tasks[i]))
    {
      hide FreeStack;
      ghost var s := Snapshot();
      var t := tasks[i];
      repaired := false;
      if !t.used {
        running := FreeKernelStack(i);
        if running {
          repaired := t.base != 0;
          ghost var f := Snapshot();
          tasks[i] := tasks[i].(top := 0, size := 0);
          assert Snapshot() == f.(tasks := f.tasks[i := f.tasks[i].(top := 0, size := 0)]);
        }
        return;
      }
      if t.life == Bad || (Going(t) && (t.entry == 0 || t.base == 0 || t.top == 0)) {
        tasks[i] := t.(life := Disabled);
        assert Snapshot() == s.(tasks := s.tasks[i := t.(life := Disabled)]);
        running := FreeKernelStack(i);
        return running, true;
      }
      if Overslept(t) {
        tasks[i] := t.(life := Active);
        return true, true;
      }
      if Ended(t) {
        running := FreeKernelStack(i);
        return running, t.base != 0;
      }
      return true, false;
    }

    /** `scheduler_repair_unlocked`. */
    method RepairTasks() returns (running: bool, repaired: nat)
      requires tasks.Length == MAX_TASKS
      modifies this`heap, this`given, this`queue, this`current, this`switched, tasks
      ensures Repair(old(Snapshot())) == if running then Some((Snapshot(), repaired)) else None
      ensures old(Valid()) && running ==> Valid()
    {
      hide RepairSlot, NeedsRepair, Good;
      if Good(Snapshot()) {
        RepairStays(Snapshot());
      }
      repaired := 0;
      ghost var s := Snapshot();
      for i := 0 to MAX_TASKS
        invariant match RepairFrom(Snapshot(), i)
          case None => RepairFrom(s, 0) == None
          case Some(r) => RepairFrom(s, 0) == Some((r.0, repaired + r.1))
      {
        var ok, acted := RepairTask(i);
        if !ok {
          return false, 0;
        }
        if acted {
          repaired := repaired + 1;
        }
      }
      if !InTable(current, tasks[..]) {
        current := None;
        repaired := repaired + 1;
      }
      if !InTable(switched, tasks[..]) {
        switched := None;
        repaired := repaired + 1;
      }
      queue := [];
      return true, repaired;
    }
  }

  lemma FreedValid(s: State, i: nat)
    requires i < |s.tasks| && H.Valid(s.heap) && FreeStack(s, i).Some?
    ensures H.Valid(FreeStack(s, i).value.heap)
  {
    hide H.Valid, H.Kfree, Validates;
    H.KfreeExact(s.heap, s.tasks[i].base);
  }

  lemma FreedFields(s: State, i: nat)
    requires i < |s.tasks| && FreeStack(s, i).Some?
    ensures FreeStack(s, i).value.nextId == s.nextId && FreeStack(s, i).value.clock == s.clock
  {
    hide Validates, H.Kfree;
  }

  /** What the runs promise of each operation, for use where it runs. */
  lemma StepStaysGood(s: State, op: Op)
    requires Good(s) && !op.Other?
    ensures H.Valid(s.heap) && |s.tasks| == MAX_TASKS
    ensures Step(s, op).Some? ==> Good(Step(s, op).value)
  {
    hide Good, Step;
    assert H.Valid(s.heap) && |s.tasks| == MAX_TASKS by { GoodShape(s); }
    if Step(s, op).Some? {
      StepGood(s, op);
    }
  }

  lemma GoodShape(s: State)
    requires Good(s)
    ensures H.Valid(s.heap) && |s.tasks| == MAX_TASKS
  {
    hide Inv, CallInv;
    InvShape(s);
  }

  lemma CreateStays(s: State, oneshot: bool, interval: nat, entry: nat)
    requires Good(s) && H.Valid(s.heap)
    ensures Create(s, oneshot, interval, entry).Some? ==> Good(Create(s, oneshot, interval, entry).value.0)
  {
    hide Good, Create;
    StepStaysGood(s, NewTask(oneshot, interval, entry));
  }

  lemma PendingStays(s: State)
    requires Good(s)
    ensures |s.tasks| == MAX_TASKS && (RunPending(s).Some? ==> Good(RunPending(s).value))
  {
    hide Good, RunPending;
    StepStaysGood(s, RunReady);
  }

  lemma ClearStays(s: State)
    requires Good(s)
    ensures ClearInactive(s).Some? ==> Good(ClearInactive(s).value)
  {
    hide Good, ClearInactive;
    StepStaysGood(s, ClearEnded);
  }

  lemma RepairStays(s: State)
    requires Good(s)
    ensures Repair(s).Some? ==> Good(Repair(s).value.0)
  {
    hide Good, Repair;
    StepStaysGood(s, Fix);
  }
}
