/** Whole runs of the i386 scheduler over its heap and clock. */
module TaskRuns32 {
  import opened MachineWords
  import opened Wrappers
  import H = HeapMachine
  import B = HeapBlocks
  import opened Tasks32
  import opened TaskStacks32
  import opened TaskCalls32
  import opened TaskRepair32

  datatype Op =
    | NewTask(oneshot: bool, interval: nat, entry: nat)
    | Stop(id: nat)
    | SleepFor(id: nat, ticks: nat)
    | WakeUp(id: nat)
    | YieldOf(id: nat)
    | RunTask(id: nat)
    | RunReady
    | ClearEnded
    | Fix
    | Tick          // a timer interrupt, with its wake scan
    | Pass          // time passes without a wake scan
    | Other(heapOp: H.Op)  // the heap used by someone else

  /** Other users of the heap ask for sizes that do not wrap and free their own pointers. */
  predicate Allowed(s: State, op: Op) {
    op.Other? ==>
      && H.Sound(op.heapOp)
      && (op.heapOp.Free? ==> forall i :: 0 <= i < |s.tasks| ==> s.tasks[i].base != op.heapOp.pointer)
  }

  /** One step; `None` is a failed kernel assertion, after which nothing runs. */
  function Step(s: State, op: Op): (r: Option<State>)
    requires H.Valid(s.heap) && |s.tasks| == MAX_TASKS
  {
    match op
    case NewTask(oneshot, interval, entry) =>
      (match Create(s, oneshot, interval, entry) case None => None case Some(r) => Some(r.0))
    case Stop(id) => Disable(s, id)
    case SleepFor(id, ticks) => Some(Sleep(s, id, ticks))
    case WakeUp(id) => Some(Wake(s, id))
    case YieldOf(id) => Some(Yield(s, id))
    case RunTask(id) => RunNow(s, id)
    case RunReady => RunPending(s)
    case ClearEnded => ClearInactive(s)
    case Fix => (match Repair(s) case None => None case Some(r) => Some(r.0))
    case Tick => Some(TimerTick(s))
    case Pass => Some(s.(clock := s.clock + 1))
    case Other(heapOp) => Some(s.(heap := H.Step(s.heap, heapOp)))
  }

  ghost predicate Good(s: State) { Inv(s) && CallInv(s) && s.cursor < MAX_TASKS }

  // ----- the stacks, operation by operation

  lemma StackCreate(s: State, oneshot: bool, interval: nat, entry: nat)
    requires Inv(s) && Create(s, oneshot, interval, entry).Some?
    ensures Inv(Create(s, oneshot, interval, entry).value.0)
  {
    hide H.Valid, TakeStack, StacksOk, Holders;
    if s.initialized && entry != 0 && (oneshot || interval > 0) && FindAvailable(s.tasks).Some? {
      var i := FindAvailable(s.tasks).value;
      var was := s.tasks[i];
      assert TaskOk(was);
      assert s.tasks[i := was] == s.tasks;
      assert was.base == 0;
      var t := BLANK.(used := true, id := s.nextId, life := Active, oneshot := oneshot, interval := interval,
        lastAt := s.clock, entry := entry);
      TookStack(s, i, t);
      var k := TakeStack(s.(tasks := s.tasks[i := t]), i);
      if k.1 {
        NextIdFree(k.0, s.nextId + 1);
      } else {
        KeptStack(s.(heap := k.0.heap), i, BLANK);
        assert s.tasks[i := t][i := BLANK] == s.tasks[i := BLANK];
      }
    }
  }

  lemma NextIdFree(s: State, n: nat)
    requires Inv(s)
    ensures Inv(s.(nextId := n))
  {
    hide H.Valid, TableOk, StacksOk, Holders;
  }

  lemma SameParts(s: State, u: State)
    requires Inv(s) && u.heap == s.heap && u.tasks == s.tasks && u.taken == s.taken && u.given == s.given
    ensures Inv(u)
  {
    hide H.Valid, TableOk, StacksOk, Holders;
  }

  /** Every slot keeps its stack. */
  lemma KeptStacks(s: State, u: State)
    requires Inv(s) && u.heap == s.heap && u.taken == s.taken && u.given == s.given && |u.tasks| == |s.tasks|
    requires forall i :: 0 <= i < |s.tasks| ==> u.tasks[i].base == s.tasks[i].base && TaskOk(u.tasks[i])
    ensures Inv(u)
  {
    hide H.Valid, Backs, TaskOk;
    assert Holders(u.tasks) == Holders(s.tasks);
  }

  lemma WakeScanKeeps(s: State, clock: nat)
    requires Inv(s)
    ensures Inv(s.(tasks := WakeScan(s.tasks, clock)))
  {
    hide H.Valid, StacksOk, Holders, Due;
    forall i | 0 <= i < |s.tasks|
      ensures WakeScan(s.tasks, clock)[i].base == s.tasks[i].base && TaskOk(WakeScan(s.tasks, clock)[i])
    {
      assert TaskOk(s.tasks[i]);
    }
    KeptStacks(s, s.(tasks := WakeScan(s.tasks, clock)));
  }

  lemma StackDisable(s: State, id: nat)
    requires Inv(s) && Disable(s, id).Some?
    ensures Inv(Disable(s, id).value)
  {
    hide H.Valid, StacksOk, Holders, FreeStack, FindTask;
    if FindTask(s.tasks, id).Some? {
      var i := FindTask(s.tasks, id).value;
      assert TaskOk(s.tasks[i]);
      if s.tasks[i].life == Active {
        FreedSlot(s, i, s.tasks[i].(life := Disabled));
      }
    }
  }

  /** Sleeping, waking and yielding leave stacks alone. */
  lemma StackRelabel(s: State, id: nat, ticks: nat)
    requires Inv(s)
    ensures Inv(Sleep(s, id, ticks)) && Inv(Wake(s, id)) && Inv(Yield(s, id))
  {
    hide H.Valid, StacksOk, Holders, FindTask;
    if FindTask(s.tasks, id).Some? {
      var i := FindTask(s.tasks, id).value;
      var t := s.tasks[i];
      assert TaskOk(t);
      if t.life == Active {
        KeptStack(s, i, t.(life := Sleeping, wakeAt := s.clock + ticks));
        KeptStack(s, i, t.(lastAt := s.clock));
      }
      if t.life == Sleeping {
        KeptStack(s, i, t.(life := Active, wakeAt := 0));
      }
    }
  }

  lemma StackTrampoline(s: State, i: nat, pending: bool)
    requires Inv(s) && i < |s.tasks| && s.tasks[i].used && s.tasks[i].life == Active && Trampoline(s, i, pending).Some?
    ensures Inv(Trampoline(s, i, pending).value)
  {
    hide H.Valid, StacksOk, Holders, FreeStack;
    var t := s.tasks[i];
    assert TaskOk(t);
    var c := s.(calls := s.calls + [Call(t.id, s.clock, pending, t.oneshot, t.interval)]);
    SameParts(s, c);
    if t.oneshot {
      FreedSlot(c, i, t.(life := Completed, runs := t.runs + 1));
    } else {
      KeptStack(c, i, t.(life := Active, runs := t.runs + 1));
    }
  }

  lemma StackRunNow(s: State, id: nat)
    requires Inv(s) && RunNow(s, id).Some?
    ensures Inv(RunNow(s, id).value)
  {
    hide H.Valid, StacksOk, Holders, FindTask, Trampoline;
    if FindTask(s.tasks, id).Some? {
      var i := FindTask(s.tasks, id).value;
      assert TaskOk(s.tasks[i]);
      if s.tasks[i].life == Active {
        KeptStack(s, i, s.tasks[i].(lastAt := s.clock));
        StackTrampoline(s.(tasks := s.tasks[i := s.tasks[i].(lastAt := s.clock)]), i, false);
      }
    }
  }

  /** The head of the ready queue is a ready slot. */
  lemma {:induction false} QueueHead(tasks: seq<Task>, cursor: nat, clock: nat, d: nat)
    requires cursor < |tasks| && d <= |tasks|
    ensures var q := ReadyQueue(tasks, cursor, clock, d);
      q != [] ==> q[0].slot < |tasks| && IsReady(tasks[q[0].slot], clock)
    decreases |tasks| - d
  {
    hide IsReady;
    if d < |tasks| {
      QueueHead(tasks, cursor, clock, d + 1);
    }
  }

  lemma StackRunPending(s: State)
    requires Inv(s) && s.cursor < MAX_TASKS && RunPending(s).Some?
    ensures Inv(RunPending(s).value)
  {
    hide H.Valid, StacksOk, Holders, Trampoline, ReadyQueue, WakeScan;
    if s.initialized {
      var woken := s.(tasks := WakeScan(s.tasks, s.clock));
      WakeScanKeeps(s, s.clock);
      var q := ReadyQueue(woken.tasks, s.cursor % |s.tasks|, s.clock, 0);
      SameParts(woken, woken.(queue := q));
      QueueHead(woken.tasks, s.cursor % |s.tasks|, s.clock, 0);
      if q != [] {
        var i := q[0].slot;
        var t := woken.tasks[i];
        assert TaskOk(t);
        var selected := woken.(queue := q, cursor := (i + 1) % |s.tasks|);
        SameParts(woken, selected);
        KeptStack(selected, i, t.(lastAt := s.clock));
        StackTrampoline(selected.(tasks := selected.tasks[i := t.(lastAt := s.clock)]), i, true);
      }
    }
  }

  lemma {:induction false} StackClear(s: State, i: nat)
    requires Inv(s) && i <= |s.tasks|
    ensures ClearFrom(s, i).Some? && Inv(ClearFrom(s, i).value)
    ensures var u := ClearFrom(s, i).value;
      && u == s.(tasks := u.tasks) && |u.tasks| == |s.tasks|
      && (forall j :: 0 <= j < |s.tasks| ==> u.tasks[j] == s.tasks[j] || u.tasks[j] == BLANK)
    decreases |s.tasks| - i
  {
    hide H.Valid, StacksOk, Holders;
    if i < |s.tasks| {
      var t := s.tasks[i];
      assert TaskOk(t);
      if !t.used || (t.life != Disabled && t.life != Completed) {
        StackClear(s, i + 1);
      } else {
        KeptStack(s, i, BLANK);
        StackClear(s.(tasks := s.tasks[i := BLANK]), i + 1);
      }
    }
  }

  /** What repair makes of a slot that is in order. */
  function Roused(t: Task): Task { if t.used && Overslept(t) then t.(life := Active) else t }

  lemma RepairOne(s: State, i: nat)
    requires Inv(s) && i < |s.tasks|
    ensures var u := s.(tasks := s.tasks[i := Roused(s.tasks[i])]); RepairSlot(s, i) == Some(u) && Inv(u)
  {
    hide H.Valid, StacksOk, Holders, Validates, H.Kfree;
    var t := s.tasks[i];
    assert TaskOk(t);
    assert s.tasks[i := t] == s.tasks;
    if t.used && Overslept(t) {
      KeptStack(s, i, t.(life := Active));
    }
  }

  lemma {:induction false} StackRepair(s: State, i: nat)
    requires Inv(s) && i <= |s.tasks|
    ensures RepairFrom(s, i).Some? && Inv(RepairFrom(s, i).value.0)
    ensures var u := RepairFrom(s, i).value.0;
      && u == s.(tasks := u.tasks) && |u.tasks| == |s.tasks|
      && (forall j :: 0 <= j < |s.tasks| ==> u.tasks[j] == if i <= j then Roused(s.tasks[j]) else s.tasks[j])
    decreases |s.tasks| - i
  {
    hide Inv, RepairSlot, Roused, NeedsRepair;
    if i < |s.tasks| {
      RepairOne(s, i);
      StackRepair(s.(tasks := s.tasks[i := Roused(s.tasks[i])]), i + 1);
    }
  }

  lemma StackOther(s: State, op: H.Op)
    requires Inv(s) && Allowed(s, Other(op))
    ensures Inv(s.(heap := H.Step(s.heap, op)))
  {
    hide H.Valid, Holders, TableOk, H.Step, B.Live;
    H.StepValid(s.heap, op);
    forall i | 0 <= i < |s.tasks| && s.tasks[i].base != 0 ensures Backs(H.Step(s.heap, op), s.tasks[i].base) {
      OtherKeeps(s.heap, op, s.tasks[i].base);
    }
  }

  lemma OtherKeeps(h: H.State, op: H.Op, p: nat)
    requires H.Valid(h) && H.Sound(op) && op != H.Free(p) && Backs(h, p)
    ensures Backs(H.Step(h, op), p)
  {
    hide H.Valid, B.Live, H.Step;
    var b :| b in B.Live(h.blocks) && b.Payload() == p && b.size >= STACK_BYTES;
    H.StepKeepsLive(h, op, b);
    StepReady(h, op);
  }

  lemma StepReady(h: H.State, op: H.Op)
    requires H.Valid(h) && H.Sound(op)
    ensures H.Step(h, op).initialized == h.initialized
  {
    hide H.Valid, H.Kmalloc, H.Kfree;
    match op {
      case Malloc(size) =>
        if size > 0 {
          H.AlignFacts(size);
          H.KmallocCorrect(h, size);
        } else {
          H.KmallocZero(h);
        }
      case Free(p) => KfreeReady(h, p);
    }
  }

  // ----- the calls, operation by operation

  lemma SameCalls(s: State, u: State)
    requires CallInv(s) && u.tasks == s.tasks && u.calls == s.calls && u.nextId == s.nextId && u.clock == s.clock
    ensures CallInv(u)
  {
    hide SlotCalls, IdsDiffer, Recorded, Spaced, EnteredOnce;
  }

  lemma CallCreate(s: State, oneshot: bool, interval: nat, entry: nat)
    requires CallInv(s) && Inv(s) && Create(s, oneshot, interval, entry).Some?
    ensures CallInv(Create(s, oneshot, interval, entry).value.0)
  {
    hide H.Valid, TakeStack, StacksOk, Holders, CallInv;
    if s.initialized && entry != 0 && (oneshot || interval > 0) && FindAvailable(s.tasks).Some? {
      var i := FindAvailable(s.tasks).value;
      assert TaskOk(s.tasks[i]);
      assert s.tasks[i := s.tasks[i]] == s.tasks;
      var t := BLANK.(used := true, id := s.nextId, life := Active, oneshot := oneshot, interval := interval,
        lastAt := s.clock, entry := entry);
      TookStack(s, i, t);
      var k := TakeStack(s.(tasks := s.tasks[i := t]), i);
      if k.1 {
        TaskCalls32.NewTask(s, i, k.0.tasks[i]);
        SameCalls(s.(tasks := k.0.tasks, nextId := s.nextId + 1), k.0.(nextId := s.nextId + 1));
      } else {
        OneMovesOn(s, i, BLANK);
        assert s.tasks[i := t][i := BLANK] == s.tasks[i := BLANK];
        SameCalls(s.(tasks := s.tasks[i := BLANK]), k.0.(tasks := k.0.tasks[i := BLANK]));
      }
    }
  }

  lemma CallDisable(s: State, id: nat)
    requires CallInv(s) && Inv(s) && Disable(s, id).Some?
    ensures CallInv(Disable(s, id).value)
  {
    hide H.Valid, StacksOk, Holders, FreeStack, FindTask, CallInv;
    if FindTask(s.tasks, id).Some? {
      var i := FindTask(s.tasks, id).value;
      assert TaskOk(s.tasks[i]);
      if s.tasks[i].life == Active {
        var t := s.tasks[i].(life := Disabled);
        FreedSlot(s, i, t);
        OneMovesOn(s, i, Bare(t));
        SameCalls(s.(tasks := s.tasks[i := Bare(t)]), Disable(s, id).value);
      }
    }
  }

  lemma CallRelabel(s: State, id: nat, ticks: nat)
    requires CallInv(s)
    ensures CallInv(Sleep(s, id, ticks)) && CallInv(Wake(s, id)) && CallInv(Yield(s, id))
  {
    hide FindTask, CallInv;
    if FindTask(s.tasks, id).Some? {
      var i := FindTask(s.tasks, id).value;
      var t := s.tasks[i];
      LastRunPast(s, i);
      if t.life == Active {
        OneMovesOn(s, i, t.(life := Sleeping, wakeAt := s.clock + ticks));
      }
      if t.life == Sleeping {
        OneMovesOn(s, i, t.(life := Active, wakeAt := 0));
      }
      if t.life == Active || t.life == Running {
        OneMovesOn(s, i, t.(lastAt := s.clock));
      }
    }
  }

  lemma LastRunPast(s: State, i: nat)
    requires CallInv(s) && i < |s.tasks| && s.tasks[i].used
    ensures s.tasks[i].lastAt <= s.clock
  {
    assert SlotCalls(s.tasks[i], s.calls, s.clock, s.nextId);
  }

  lemma CallWakeScan(s: State, clock: nat)
    requires CallInv(s) && s.clock <= clock
    ensures CallInv(s.(clock := clock)) && CallInv(s.(clock := clock, tasks := WakeScan(s.tasks, clock)))
  {
    hide CallInv, Due;
    SlotsMoveOn(s, s.(clock := clock));
    SlotsMoveOn(s, s.(clock := clock, tasks := WakeScan(s.tasks, clock)));
  }

  /** Entering slot `i` after its last run was set to now. */
  lemma CallTrampoline(s: State, i: nat, pending: bool)
    requires Inv(s) && CallInv(s) && i < |s.tasks| && s.tasks[i].used && s.tasks[i].life == Active
    requires pending ==> IsReady(s.tasks[i], s.clock)
    requires Trampoline(s.(tasks := s.tasks[i := s.tasks[i].(lastAt := s.clock)]), i, pending).Some?
    ensures CallInv(Trampoline(s.(tasks := s.tasks[i := s.tasks[i].(lastAt := s.clock)]), i, pending).value)
  {
    hide H.Valid, StacksOk, Holders, FreeStack, CallInv, IsReady;
    var t := s.tasks[i].(lastAt := s.clock);
    LastRunPast(s, i);
    assert TaskOk(s.tasks[i]);
    var c := Call(t.id, s.clock, pending, t.oneshot, t.interval);
    var u := Trampoline(s.(tasks := s.tasks[i := t]), i, pending).value;
    if t.oneshot {
      var n := t.(life := Completed, runs := t.runs + 1);
      var called := s.(calls := s.calls + [c]);
      SameParts(s, called);
      assert s.tasks[i := t][i := n] == s.tasks[i := n];
      FreedSlot(called, i, n);
      Entered(s, i, t, pending, Bare(n));
      SameCalls(s.(tasks := s.tasks[i := Bare(n)], calls := s.calls + [c]), u);
    } else {
      var n := t.(life := Active, runs := t.runs + 1);
      assert s.tasks[i := t][i := n] == s.tasks[i := n];
      Entered(s, i, t, pending, n);
    }
  }

  lemma CallRunNow(s: State, id: nat)
    requires Inv(s) && CallInv(s) && RunNow(s, id).Some?
    ensures CallInv(RunNow(s, id).value)
  {
    hide Inv, FindTask, Trampoline, CallInv;
    if FindTask(s.tasks, id).Some? && s.tasks[FindTask(s.tasks, id).value].life == Active {
      CallTrampoline(s, FindTask(s.tasks, id).value, false);
    }
  }

  lemma CallRunPending(s: State)
    requires Inv(s) && CallInv(s) && s.cursor < MAX_TASKS && s.tasks != [] && RunPending(s).Some?
    ensures CallInv(RunPending(s).value)
  {
    hide Inv, Trampoline, ReadyQueue, WakeScan, CallInv;
    if s.initialized {
      var woken := s.(tasks := WakeScan(s.tasks, s.clock));
      WakeScanKeeps(s, s.clock);
      CallWakeScan(s, s.clock);
      var q := ReadyQueue(woken.tasks, s.cursor % |s.tasks|, s.clock, 0);
      SameCalls(woken, woken.(queue := q));
      QueueHead(woken.tasks, s.cursor % |s.tasks|, s.clock, 0);
      if q != [] {
        var i := q[0].slot;
        var selected := woken.(queue := q, cursor := (i + 1) % |s.tasks|);
        SameCalls(woken, selected);
        SameParts(woken, selected);
        CallTrampoline(selected, i, true);
      }
    }
  }

  // ----- steps and runs

  lemma CursorKept(s: State, op: Op)
    requires Good(s) && Allowed(s, op) && Step(s, op).Some?
    ensures Step(s, op).value.cursor < MAX_TASKS
  {
    hide H.Valid, StacksOk, Holders, CallInv, ReadyQueue, FindTask, FindAvailable, WakeScan, Validates, H.Kfree,
      H.Kmalloc, H.Step;
    match op {
      case ClearEnded => StackClear(s, 0);
      case Fix => StackRepair(s, 0);
      case _ =>
    }
  }

  /** Every step that does not fail a kernel assertion keeps stacks, counters and call record in
      order. */
  lemma StepGood(s: State, op: Op)
    requires Good(s) && Allowed(s, op) && Step(s, op).Some?
    ensures Good(Step(s, op).value)
  {
    hide Inv, CallInv, Create, Disable, Sleep, Wake, Yield, RunNow, RunPending, Allowed, WakeScan, H.Step, ClearFrom,
      RepairFrom;
    assert H.Valid(s.heap) && |s.tasks| == MAX_TASKS by { InvShape(s); }
    CursorKept(s, op);
    match op {
      case NewTask(oneshot, interval, entry) =>
        StackCreate(s, oneshot, interval, entry);
        CallCreate(s, oneshot, interval, entry);
      case Stop(id) =>
        StackDisable(s, id);
        CallDisable(s, id);
      case SleepFor(id, ticks) =>
        StackRelabel(s, id, ticks);
        CallRelabel(s, id, ticks);
      case WakeUp(id) =>
        StackRelabel(s, id, 0);
        CallRelabel(s, id, 0);
      case YieldOf(id) =>
        StackRelabel(s, id, 0);
        CallRelabel(s, id, 0);
      case RunTask(id) =>
        StackRunNow(s, id);
        CallRunNow(s, id);
      case RunReady =>
        StackRunPending(s);
        CallRunPending(s);
      case ClearEnded => ClearGood(s);
      case Fix => RepairGood(s);
      case Tick =>
        TickGood(s);
      case Pass =>
        CallWakeScan(s, s.clock + 1);
        SameParts(s, s.(clock := s.clock + 1));
      case Other(heapOp) =>
        StackOther(s, heapOp);
        SameCalls(s, s.(heap := H.Step(s.heap, heapOp)));
    }
  }

  lemma InvShape(s: State)
    requires Inv(s)
    ensures H.Valid(s.heap) && |s.tasks| == MAX_TASKS
  {
    hide H.Valid, StacksOk, Holders;
  }

  lemma TickGood(s: State)
    requires Inv(s) && CallInv(s)
    ensures Inv(TimerTick(s)) && CallInv(TimerTick(s))
  {
    hide Inv, CallInv, WakeScan;
    CallWakeScan(s, s.clock + 1);
    SameParts(s, s.(clock := s.clock + 1));
    WakeScanKeeps(s.(clock := s.clock + 1), s.clock + 1);
  }

  lemma ClearGood(s: State)
    requires Inv(s) && CallInv(s) && ClearInactive(s).Some?
    ensures Inv(ClearInactive(s).value) && CallInv(ClearInactive(s).value)
  {
    hide Inv, CallInv, ClearFrom;
    assert |s.tasks| == MAX_TASKS by { InvShape(s); }
    StackClear(s, 0);
    var u, v := ClearFrom(s, 0).value, ClearInactive(s).value;
    SameParts(u, v);
    SlotsMoveOn(s, v);
  }

  lemma RepairGood(s: State)
    requires Inv(s) && CallInv(s) && Repair(s).Some?
    ensures Inv(Repair(s).value.0) && CallInv(Repair(s).value.0)
  {
    hide Inv, CallInv, RepairFrom;
    assert |s.tasks| == MAX_TASKS by { InvShape(s); }
    StackRepair(s, 0);
    var u, v := RepairFrom(s, 0).value.0, Repair(s).value.0;
    SameParts(u, v);
    SlotsMoveOn(s, v);
  }

  /** `t` is reached from `s` by these steps, none of which fails a kernel assertion. */
  ghost predicate Reaches(s: State, ops: seq<Op>, t: State)
    requires Good(s)
    decreases |ops|
  {
    InvShape(s);
    if ops == [] then t == s
    else
      Allowed(s, ops[0]) && Step(s, ops[0]).Some? && (StepGood(s, ops[0]); Reaches(Step(s, ops[0]).value, ops[1..], t))
  }

  /** In every reachable state: stacks taken minus stacks given back is the number of slots
      holding one; recurring tasks kept their interval; one-shot bodies ran at most once. */
  lemma {:induction false} RunGood(s: State, ops: seq<Op>, t: State)
    requires Good(s) && Reaches(s, ops, t)
    ensures Good(t)
    ensures t.taken - t.given == |Holders(t.tasks)| && Spaced(t.calls) && EnteredOnce(t.calls)
    decreases |ops|
  {
    hide H.Valid, TableOk, StacksOk, Holders, SlotCalls, IdsDiffer, Recorded, Spaced, EnteredOnce, Step, Allowed;
    InvShape(s);
    if ops != [] {
      StepGood(s, ops[0]);
      RunGood(Step(s, ops[0]).value, ops[1..], t);
    }
  }

  /** Stacks of different slots never overlap and lie inside the heap. */
  lemma StacksDisjoint(s: State, i: nat, j: nat)
    requires Good(s) && i < |s.tasks| && j < |s.tasks| && i != j && s.tasks[i].base != 0 && s.tasks[j].base != 0
    ensures var p, q := s.tasks[i].base, s.tasks[j].base;
      && (p + STACK_BYTES <= q || q + STACK_BYTES <= p)
      && H.START <= p && p + STACK_BYTES <= H.TOP
  {
    hide H.Valid, Holders, CallInv, Backs;
    assert s.tasks[i].base != s.tasks[j].base by {
      if j < i {
        assert s.tasks[j].base != s.tasks[i].base;
      }
    }
    BackedApart(s.heap, s.tasks[i].base, s.tasks[j].base);
    BackedInRange(s.heap, s.tasks[i].base);
  }

  /** `scheduler_initialize` over any well-formed heap. */
  lemma InitialGood(heap: H.State, clock: nat)
    requires H.Valid(heap)
    ensures Good(State(true, seq(MAX_TASKS, _ => BLANK), 0, [], 1, heap, 0, 0, clock, [], None, None))
  {
    hide H.Valid, Backs;
    var s := State(true, seq(MAX_TASKS, _ => BLANK), 0, [], 1, heap, 0, 0, clock, [], None, None);
    assert Holders(s.tasks) == {};
  }

  // ----- sleeping over a run

  /** A sleeping task is left alone by every step but its own wake-up, a due wake scan, and a
      repair that takes its wake tick of zero for a missing one. */
  lemma StepAsleep(s: State, op: Op, i: nat)
    requires Good(s) && Allowed(s, op) && |s.tasks| == MAX_TASKS && H.Valid(s.heap) && Step(s, op).Some?
      && i < |s.tasks|
    requires s.tasks[i].used && s.tasks[i].life == Sleeping
    requires op != WakeUp(s.tasks[i].id) && (op.Fix? ==> s.tasks[i].wakeAt % U32 != 0)
    requires !Due(Step(s, op).value.clock, s.tasks[i].wakeAt)
    ensures |Step(s, op).value.tasks| == |s.tasks| && Step(s, op).value.tasks[i] == s.tasks[i]
  {
    hide H.Valid, StacksOk, Holders, CallInv, FindTask, FindAvailable, Due, Validates, H.Kfree, H.Kmalloc, H.Step,
      RunPending, Create, ClearFrom, RepairFrom, WakeScan;
    match op {
      case NewTask(oneshot, interval, entry) => CreateAsleep(s, oneshot, interval, entry, i);
      case ClearEnded => ClearAsleep(s, 0, i);
      case Fix => StackRepair(s, 0);
      case RunReady =>
        PendingClock(s);
        PendingAsleep(s, i);
      case Tick => assert s.initialized ==>
        WakeScan(s.tasks, s.clock + 1)[i] == s.tasks[i] by { NotWoken(s.tasks, s.clock + 1, i); }
      case _ =>
    }
  }

  lemma NotWoken(tasks: seq<Task>, clock: nat, i: nat)
    requires i < |tasks| && !Due(clock, tasks[i].wakeAt)
    ensures WakeScan(tasks, clock)[i] == tasks[i]
  {
    hide Due;
  }

  lemma CreateAsleep(s: State, oneshot: bool, interval: nat, entry: nat, i: nat)
    requires H.Valid(s.heap) && i < |s.tasks| && s.tasks[i].used && s.tasks[i].life == Sleeping
    requires Create(s, oneshot, interval, entry).Some?
    ensures var u := Create(s, oneshot, interval, entry).value.0; |u.tasks| == |s.tasks| && u.tasks[i] == s.tasks[i]
  {
    hide H.Valid, FindAvailable, Validates, H.Kfree, H.Kmalloc;
  }

  lemma PendingClock(s: State)
    requires s.tasks != [] && RunPending(s).Some?
    ensures RunPending(s).value.clock == s.clock
  {
    hide ReadyQueue, Validates, H.Kfree, WakeScan;
  }

  lemma PendingAsleep(s: State, i: nat)
    requires i < |s.tasks| && s.tasks[i].life == Sleeping && !Due(s.clock, s.tasks[i].wakeAt) && RunPending(s).Some?
    ensures |RunPending(s).value.tasks| == |s.tasks| && RunPending(s).value.tasks[i] == s.tasks[i]
  {
    hide Due, ReadyQueue, Validates, H.Kfree, WakeScan;
    var woken := WakeScan(s.tasks, s.clock);
    NotWoken(s.tasks, s.clock, i);
    QueueHead(woken, s.cursor % |s.tasks|, s.clock, 0);
  }

  /** A repair ends a sleep exactly when its wake tick is zero in 32 bits. */
  lemma RepairWakesExactly(s: State, i: nat)
    requires Good(s) && i < |s.tasks| && s.tasks[i].used && s.tasks[i].life == Sleeping
    ensures Repair(s).Some? && |Repair(s).value.0.tasks| == |s.tasks|
    ensures var t := Repair(s).value.0.tasks[i];
      if s.tasks[i].wakeAt % U32 == 0 then t == s.tasks[i].(life := Active) else t == s.tasks[i]
  {
    hide Inv, CallInv, RepairFrom;
    assert i <= |s.tasks|;
    StackRepair(s, 0);
  }

  /** Such a sleep is one call away from every state with an active task, at any tick that is not
      itself zero: a repair then wakes the task before its time. */
  lemma RepairWakesEarly(s: State, i: nat)
    requires Good(s) && i < |s.tasks| && s.tasks[i].used && s.tasks[i].life == Active && s.clock % U32 != 0
    ensures var u := Sleep(s, s.tasks[i].id, U32 - s.clock % U32);
      && 0 < U32 - s.clock % U32 < U32 && |u.tasks| == |s.tasks|
      && u.tasks[i].life == Sleeping && Good(u)
      && Repair(u).Some? && |Repair(u).value.0.tasks| == |s.tasks|
      && Repair(u).value.0.tasks[i].life == Active && Repair(u).value.0.clock < u.tasks[i].wakeAt
  {
    hide Inv, Repair, FindTask;
    var id, ticks := s.tasks[i].id, U32 - s.clock % U32;
    assert FindTask(s.tasks, id) == Some(i) by { IdFinds(s, i); }
    var u := Sleep(s, id, ticks);
    StackRelabel(s, id, ticks);
    CallRelabel(s, id, ticks);
    assert u.tasks[i].wakeAt % U32 == 0 by { NextZeroTick(s.clock); }
    RepairWakesExactly(u, i);
    assert Repair(u).value.0.clock == u.clock by { RepairedClock(u); }
  }

  lemma NextZeroTick(clock: nat)
    ensures (clock + (U32 - clock % U32)) % U32 == 0
  {
    assert clock + (U32 - clock % U32) == (clock / U32 + 1) * U32;
  }

  lemma RepairedClock(s: State)
    ensures Repair(s).Some? ==> Repair(s).value.0.clock == s.clock
  {
    hide RepairFrom;
    RepairClock(s, 0);
  }

  lemma IdFinds(s: State, i: nat)
    requires CallInv(s) && i < |s.tasks| && s.tasks[i].used
    ensures FindTask(s.tasks, s.tasks[i].id) == Some(i)
  {
    hide SlotCalls, Recorded, Spaced, EnteredOnce;
    assert s.tasks[i].id == s.tasks[i].id;
  }

  lemma {:induction false} ClearAsleep(s: State, k: nat, i: nat)
    requires Inv(s) && k <= |s.tasks| && i < |s.tasks| && s.tasks[i].used && s.tasks[i].life == Sleeping
    ensures ClearFrom(s, k).Some? && |ClearFrom(s, k).value.tasks| == |s.tasks|
      && ClearFrom(s, k).value.tasks[i] == s.tasks[i]
    decreases |s.tasks| - k
  {
    hide H.Valid, StacksOk, Holders;
    if k < |s.tasks| {
      var t := s.tasks[k];
      assert TaskOk(t);
      if !t.used || (t.life != Disabled && t.life != Completed) {
        ClearAsleep(s, k + 1, i);
      } else {
        KeptStack(s, k, BLANK);
        ClearAsleep(s.(tasks := s.tasks[k := BLANK]), k + 1, i);
      }
    }
  }

  lemma ClockNeverBack(s: State, op: Op)
    requires H.Valid(s.heap) && |s.tasks| == MAX_TASKS && Step(s, op).Some?
    ensures s.clock <= Step(s, op).value.clock
  {
    hide H.Valid, FindTask, FindAvailable, Due, Validates, H.Kfree, H.Kmalloc, H.Step, ReadyQueue, ClearFrom,
      RepairFrom, WakeScan;
    match op {
      case ClearEnded => ClearClock(s, 0);
      case Fix => RepairClock(s, 0);
      case _ =>
    }
  }

  lemma {:induction false} ClearClock(s: State, i: nat)
    requires i <= |s.tasks|
    ensures ClearFrom(s, i).Some? ==> ClearFrom(s, i).value.clock == s.clock
    decreases |s.tasks| - i
  {
    hide Validates, H.Kfree;
    if i < |s.tasks| {
      if !s.tasks[i].used || (s.tasks[i].life != Disabled && s.tasks[i].life != Completed) {
        ClearClock(s, i + 1);
      } else if FreeStack(s, i).Some? {
        var f := FreeStack(s, i).value;
        ClearClock(f.(tasks := f.tasks[i := BLANK]), i + 1);
      }
    }
  }

  lemma {:induction false} RepairClock(s: State, i: nat)
    requires i <= |s.tasks|
    ensures RepairFrom(s, i).Some? ==> RepairFrom(s, i).value.0.clock == s.clock
    decreases |s.tasks| - i
  {
    hide Validates, H.Kfree;
    if i < |s.tasks| && RepairSlot(s, i).Some? {
      RepairClock(RepairSlot(s, i).value, i + 1);
    }
  }

  lemma {:induction false} RunClock(s: State, ops: seq<Op>, t: State)
    requires Good(s) && Reaches(s, ops, t)
    ensures s.clock <= t.clock
    decreases |ops|
  {
    hide Inv, CallInv, Step, Allowed;
    InvShape(s);
    if ops != [] {
      StepGood(s, ops[0]);
      ClockNeverBack(s, ops[0]);
      RunClock(Step(s, ops[0]).value, ops[1..], t);
    }
  }

  /** Over every run that ends before the wake time, a task put to sleep for at most half the
      counter's range sleeps on, unless it is woken by name or a repair meets a wake tick that
      is zero in 32 bits. */
  lemma {:induction false} RunAsleep(s: State, ops: seq<Op>, t: State, i: nat)
    requires Good(s) && Reaches(s, ops, t) && i < |s.tasks| && s.tasks[i].used && s.tasks[i].life == Sleeping
    requires t.clock < s.tasks[i].wakeAt <= s.clock + HALF
    requires forall k :: 0 <= k < |ops| ==>
      ops[k] != WakeUp(s.tasks[i].id) && (ops[k].Fix? ==> s.tasks[i].wakeAt % U32 != 0)
    ensures |t.tasks| == |s.tasks| && t.tasks[i] == s.tasks[i]
    decreases |ops|
  {
    hide Inv, CallInv, Step, Allowed, Due;
    InvShape(s);
    if ops != [] {
      StepGood(s, ops[0]);
      var u := Step(s, ops[0]).value;
      ClockNeverBack(s, ops[0]);
      RunClock(u, ops[1..], t);
      NotYetDue(u.clock, s.tasks[i].wakeAt);
      assert ops[0] != WakeUp(s.tasks[i].id);
      StepAsleep(s, ops[0], i);
      forall k | 0 <= k < |ops[1..]|
        ensures ops[1..][k] != WakeUp(u.tasks[i].id) && (ops[1..][k].Fix? ==> u.tasks[i].wakeAt % U32 != 0)
      {
        assert ops[1..][k] == ops[k + 1];
      }
      RunAsleep(u, ops[1..], t, i);
    }
  }

  /** Any wake scan in the half range after the wake time ends the sleep, whether the timer or
      `run_pending` makes it. */
  lemma ScanWakes(s: State, i: nat, clock: nat)
    requires i < |s.tasks| && s.tasks[i].used && s.tasks[i].life == Sleeping
    requires s.tasks[i].wakeAt <= clock < s.tasks[i].wakeAt + HALF
    ensures WakeScan(s.tasks, clock)[i] == s.tasks[i].(life := Active, wakeAt := 0)
    ensures s.initialized && clock == s.clock + 1 ==> TimerTick(s).tasks[i].life == Active
    ensures s.initialized && clock == s.clock && RunPending(s).Some? ==>
      && var u := RunPending(s).value;
      && |u.tasks| == |s.tasks| && u.tasks[i].wakeAt == 0
      && (u.tasks[i].life == Active || (s.tasks[i].oneshot && u.tasks[i].life == Completed))
  {
    hide Due, ReadyQueue, Validates, H.Kfree;
    DueOnceReached(clock, s.tasks[i].wakeAt);
  }
}
