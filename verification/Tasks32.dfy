/** The i386 scheduler as functions of its whole state: its table of kernel tasks, the round-robin
    cursor, the heap its stacks come from, the clock, and the bodies it entered. */
module Tasks32 {
  import opened MachineWords
  import opened Wrappers
  import H = HeapMachine
  import RR = RoundRobin

  const MAX_TASKS: nat := 16
  const STACK_BYTES: nat := 4096
  const HALF: nat := 0x8000_0000

  /** `Bad` stands for a state value outside the enumeration. */
  datatype Life = Unused | Active | Running | Disabled | Completed | Sleeping | Bad

  /** Times are points of the unbounded clock; the kernel keeps and sees their low 32 bits. */
  datatype Task = Task(used: bool, id: nat, life: Life, oneshot: bool, interval: nat, lastAt: nat, runs: nat,
                       wakeAt: nat, base: nat, size: nat, top: nat, entry: nat)

  const BLANK: Task := Task(false, 0, Unused, false, 0, 0, 0, 0, 0, 0, 0, 0)

  /** A task body entered: which task, when, and whether by `scheduler_run_pending`. */
  datatype Call = Call(id: nat, at: nat, pending: bool, oneshot: bool, interval: nat)

  datatype Queued = Queued(slot: nat, id: nat)

  datatype State = State(
    initialized: bool, tasks: seq<Task>, cursor: nat, queue: seq<Queued>, nextId: nat, heap: H.State,
    taken: nat, given: nat, clock: nat, calls: seq<Call>, current: Option<nat>, switched: Option<nat>)

  /** `a - b` of two tick counters in 32-bit arithmetic. */
  function Elapsed(a: nat, b: nat): nat { (a % U32 + U32 - b % U32) % U32 }

  /** The wake test: less than half the counter's range past the wake tick. */
  predicate Due(clock: nat, wakeAt: nat) { Elapsed(clock, wakeAt) < HALF }

  // ----- the kernel stack of a slot

  /** `heap_validate_pointer`. */
  predicate Validates(h: H.State, p: nat) {
    match H.Find(h, p) case None => false case Some(i) => i < |h.blocks| && h.blocks[i].used
  }

  /** `scheduler_free_kernel_stack`; `None` is the failed kernel assertion. */
  function FreeStack(s: State, i: nat): (r: Option<State>)
    requires i < |s.tasks|
    ensures r.Some? ==> |r.value.tasks| == |s.tasks|
  {
    var t := s.tasks[i];
    if t.base == 0 then Some(s)
    else if !Validates(s.heap, t.base) then None
    else Some(s.(heap := H.Kfree(s.heap, t.base), tasks := s.tasks[i := t.(base := 0, size := 0, top := 0)],
      given := s.given + 1))
  }

  /** `scheduler_allocate_kernel_stack` for what is about to fill slot `i`. */
  function TakeStack(s: State, i: nat): (r: (State, bool))
    requires i < |s.tasks| && H.Valid(s.heap)
    ensures |r.0.tasks| == |s.tasks|
  {
    var k := H.Kmalloc(s.heap, STACK_BYTES);
    if k.pointer == 0 then (s.(heap := k.state), false)
    else
      (s.(heap := k.state, taken := s.taken + 1,
          tasks := s.tasks[i := s.tasks[i].(base := k.pointer, size := STACK_BYTES,
            top := (k.pointer + STACK_BYTES) % U32)]), true)
  }

  // ----- finding slots

  predicate Available(t: Task) { !t.used || t.life == Unused || t.life == Disabled || t.life == Completed }

  /** `scheduler_find_available_slot`. */
  function FindAvailable(tasks: seq<Task>, i: nat := 0): (r: Option<nat>)
    requires i <= |tasks|
    ensures r.Some? ==> i <= r.value < |tasks| && Available(tasks[r.value])
    ensures r.Some? ==> forall j :: i <= j < r.value ==> !Available(tasks[j])
    ensures r.None? ==> forall j :: i <= j < |tasks| ==> !Available(tasks[j])
    decreases |tasks| - i
  {
    if i == |tasks| then None else if Available(tasks[i]) then Some(i) else FindAvailable(tasks, i + 1)
  }

  /** `scheduler_find_task_by_id_mutable`. */
  function FindTask(tasks: seq<Task>, id: nat, i: nat := 0): (r: Option<nat>)
    requires i <= |tasks|
    ensures r.Some? ==> i <= r.value < |tasks| && tasks[r.value].used && tasks[r.value].id == id
    ensures r.None? ==> forall j :: i <= j < |tasks| && tasks[j].used ==> tasks[j].id != id
    decreases |tasks| - i
  {
    if i == |tasks| then None else if tasks[i].used && tasks[i].id == id then Some(i) else FindTask(tasks, id, i + 1)
  }

  // ----- creating and disabling

  /** `scheduler_create_task_internal_unlocked`: the state and the id, 0 for failure. */
  function Create(s: State, oneshot: bool, interval: nat, entry: nat): (r: Option<(State, nat)>)
    requires H.Valid(s.heap)
  {
    if !s.initialized || entry == 0 || (!oneshot && interval == 0) || FindAvailable(s.tasks).None? then Some((s, 0))
    else
      var i := FindAvailable(s.tasks).value;
      match FreeStack(s, i)
      case None => None
      case Some(f) =>
        H.KfreeExact(s.heap, s.tasks[i].base);
        var t := BLANK.(used := true, id := s.nextId, life := Active, oneshot := oneshot, interval := interval,
          lastAt := s.clock, entry := entry);
        var k := TakeStack(f.(tasks := f.tasks[i := t]), i);
        if !k.1 then Some((k.0.(tasks := k.0.tasks[i := BLANK]), 0))
        else Some((k.0.(nextId := s.nextId + 1), s.nextId))
  }

  /** `scheduler_disable_task_unlocked`. */
  function Disable(s: State, id: nat): (r: Option<State>) {
    match FindTask(s.tasks, id)
    case None => Some(s)
    case Some(i) =>
      if s.tasks[i].life != Active && s.tasks[i].life != Running then Some(s)
      else FreeStack(s.(tasks := s.tasks[i := s.tasks[i].(life := Disabled)]), i)
  }

  // ----- sleeping, waking, yielding

  /** `scheduler_sleep_task_unlocked`. */
  function Sleep(s: State, id: nat, ticks: nat): State {
    match FindTask(s.tasks, id)
    case None => s
    case Some(i) =>
      if ticks == 0 || s.tasks[i].life != Active then s
      else s.(tasks := s.tasks[i := s.tasks[i].(life := Sleeping, wakeAt := s.clock + ticks)])
  }

  /** `scheduler_wake_task_unlocked`. */
  function Wake(s: State, id: nat): State {
    match FindTask(s.tasks, id)
    case None => s
    case Some(i) =>
      if s.tasks[i].life != Sleeping then s
      else s.(tasks := s.tasks[i := s.tasks[i].(life := Active, wakeAt := 0)])
  }

  /** One slot of the wake scan. */
  function Woken(t: Task, clock: nat): Task {
    if t.used && t.life == Sleeping && Due(clock, t.wakeAt) then t.(life := Active, wakeAt := 0) else t
  }

  /** `scheduler_wake_sleeping_tasks`. */
  function WakeScan(tasks: seq<Task>, clock: nat): (r: seq<Task>)
    ensures |r| == |tasks|
  {
    seq(|tasks|, i requires 0 <= i < |tasks| => Woken(tasks[i], clock))
  }

  /** `scheduler_yield_task_unlocked`. */
  function Yield(s: State, id: nat): State {
    match FindTask(s.tasks, id)
    case None => s
    case Some(i) =>
      if s.tasks[i].life != Active && s.tasks[i].life != Running then s
      else s.(tasks := s.tasks[i := s.tasks[i].(lastAt := s.clock)])
  }

  // ----- running task bodies

  /** `scheduler_task_trampoline` on the scheduler's own stack; the body itself does not call
      back into the scheduler. */
  function Trampoline(s: State, i: nat, pending: bool): (r: Option<State>)
    requires i < |s.tasks|
    ensures r.Some? ==> |r.value.tasks| == |s.tasks|
  {
    var t := s.tasks[i];
    if t.entry == 0 then Some(s)
    else
      var called := s.(calls := s.calls + [Call(t.id, s.clock, pending, t.oneshot, t.interval)],
                       tasks := s.tasks[i := t.(life := if t.oneshot then Completed else Active, runs := t.runs + 1)]);
      if t.oneshot then FreeStack(called, i) else Some(called)
  }

  /** `scheduler_run_task_now_unlocked`. */
  function RunNow(s: State, id: nat): (r: Option<State>) {
    match FindTask(s.tasks, id)
    case None => Some(s)
    case Some(i) =>
      if s.tasks[i].life != Active then Some(s)
      else Trampoline(s.(tasks := s.tasks[i := s.tasks[i].(lastAt := s.clock)]), i, false)
  }

  /** `scheduler_task_is_ready_to_run`. */
  predicate IsReady(t: Task, clock: nat) {
    t.used && t.life == Active && (t.oneshot || Elapsed(clock, t.lastAt) >= t.interval)
  }

  function ReadyBits(tasks: seq<Task>, clock: nat): (r: seq<bool>)
    ensures |r| == |tasks|
  {
    seq(|tasks|, i requires 0 <= i < |tasks| => IsReady(tasks[i], clock))
  }

  /** `scheduler_rebuild_ready_queue` from place `d` on: ready slots in cyclic order. */
  function ReadyQueue(tasks: seq<Task>, cursor: nat, clock: nat, d: nat): (q: seq<Queued>)
    requires cursor < |tasks| && d <= |tasks|
    ensures |q| <= |tasks| - d
    decreases |tasks| - d
  {
    if d == |tasks| then []
    else
      var i := RR.At(cursor, d, |tasks|);
      (if IsReady(tasks[i], clock) then [Queued(i, tasks[i].id)] else []) + ReadyQueue(tasks, cursor, clock, d + 1)
  }

  /** `scheduler_run_pending_unlocked`. */
  function RunPending(s: State): (r: Option<State>)
    requires s.tasks != []
  {
    if !s.initialized then Some(s)
    else
      var woken := s.(tasks := WakeScan(s.tasks, s.clock));
      var q := ReadyQueue(woken.tasks, s.cursor % |s.tasks|, s.clock, 0);
      if q == [] then Some(woken.(queue := []))
      else
        var i := q[0].slot;
        if i >= |s.tasks| then Some(woken.(queue := q))
        else
          var selected := woken.(queue := q, cursor := (i + 1) % |s.tasks|,
                                 tasks := woken.tasks[i := woken.tasks[i].(lastAt := s.clock)]);
          Trampoline(selected, i, true)
  }

  /** A timer interrupt: the clock advances and sleeping tasks that are due wake up. */
  function TimerTick(s: State): State {
    var later := s.(clock := s.clock + 1);
    if s.initialized then later.(tasks := WakeScan(s.tasks, later.clock)) else later
  }

  // ----- clearing

  /** `scheduler_clear_inactive_tasks_unlocked` from slot `i` on. */
  function ClearFrom(s: State, i: nat): (r: Option<State>)
    requires i <= |s.tasks|
    decreases |s.tasks| - i
  {
    if i == |s.tasks| then Some(s)
    else if !s.tasks[i].used || (s.tasks[i].life != Disabled && s.tasks[i].life != Completed) then ClearFrom(s, i + 1)
    else
      match FreeStack(s, i)
      case None => None
      case Some(f) => ClearFrom(f.(tasks := f.tasks[i := BLANK]), i + 1)
  }

  function ClearInactive(s: State): (r: Option<State>) {
    match ClearFrom(s, 0)
    case None => None
    case Some(t) => Some(t.(queue := [], cursor := if t.cursor >= MAX_TASKS then 0 else t.cursor))
  }
}
