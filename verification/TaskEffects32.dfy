/** What each operation of the i386 scheduler does to the fields of the slot it is about, in
    every state in good order, and that it leaves the other slots alone. */
module TaskEffects32 {
  import opened MachineWords
  import opened Wrappers
  import H = HeapMachine
  import B = HeapBlocks
  import opened Tasks32
  import opened TaskStacks32
  import opened TaskCalls32
  import opened TaskRepair32
  import opened TaskRuns32

  /** Slot `k` holds the task with this id. */
  predicate Holds(s: State, k: nat, id: nat) { k < |s.tasks| && s.tasks[k].used && s.tasks[k].id == id }

  ghost predicate Unknown(s: State, id: nat) { forall k :: 0 <= k < |s.tasks| ==> !Holds(s, k, id) }

  lemma Named(s: State, id: nat)
    requires CallInv(s)
    ensures forall k :: 0 <= k < |s.tasks| && Holds(s, k, id) ==> FindTask(s.tasks, id) == Some(k)
    ensures Unknown(s, id) ==> FindTask(s.tasks, id) == None
  {
    hide CallInv, FindTask;
    forall k | 0 <= k < |s.tasks| && Holds(s, k, id) ensures FindTask(s.tasks, id) == Some(k) {
      IdFinds(s, k);
    }
    if Unknown(s, id) {
      assert FindTask(s.tasks, id) == None by { NotFound(s, id); }
    }
  }

  lemma NotFound(s: State, id: nat)
    requires Unknown(s, id)
    ensures FindTask(s.tasks, id) == None
  {
    var r := FindTask(s.tasks, id);
    assert r.Some? ==> Holds(s, r.value, id);
  }

  /** In good order a task is active, sleeping, disabled or completed; only the first two hold a
      stack. */
  lemma GoodSlot(s: State, k: nat)
    requires Good(s) && k < |s.tasks|
    ensures var t := s.tasks[k];
      if !t.used then t == BLANK
      else
        && (t.life == Active || t.life == Sleeping || t.life == Disabled || t.life == Completed)
        && t.entry != 0 && (t.base != 0 <==> t.life == Active || t.life == Sleeping)
  {
    hide H.Valid, StacksOk, Holders, CallInv;
    assert TaskOk(s.tasks[k]);
  }

  // ----- stacks given back

  /** Freeing the stack a slot holds: the heap loses that block, the slot its stack fields, and
      one more stack counts as given back. The kernel's pointer check fails only when the block
      lies past the heap's walk. */
  lemma GivesBack(s: State, k: nat, t: Task)
    requires Good(s) && k < |s.tasks| && s.tasks[k].base != 0 && t.base == s.tasks[k].base
    ensures var r := FreeStack(s.(tasks := s.tasks[k := t]), k);
      && (r.Some? <==> H.Freeable(s.heap, t.base)) && (|s.heap.blocks| <= B.LIMIT ==> r.Some?)
      && (r.Some? ==> r.value == s.(heap := H.Kfree(s.heap, t.base), given := s.given + 1,
                                    tasks := s.tasks[k := t.(base := 0, size := 0, top := 0)]))
  {
    hide H.Valid, H.Kfree, Validates, H.Freeable, CallInv, StacksOk, Holders, TableOk;
    ValidatesIsFreeable(s.heap, t.base);
    if |s.heap.blocks| <= B.LIMIT {
      FreeSucceeds(s, k);
    }
    assert s.tasks[k := t][k := t.(base := 0, size := 0, top := 0)] == s.tasks[k := t.(base := 0, size := 0, top := 0)];
  }

  /** Disabling an active task leaves it disabled, without a stack; a sleeping, ended or unknown
      one is left as it is. */
  lemma DisableExactly(s: State, id: nat)
    requires Good(s)
    ensures forall k :: 0 <= k < |s.tasks| && Holds(s, k, id) ==>
      var t := s.tasks[k];
      if t.life == Active then
        && (Disable(s, id).Some? <==> H.Freeable(s.heap, t.base))
        && (|s.heap.blocks| <= B.LIMIT ==> Disable(s, id).Some?)
        && (Disable(s, id).Some? ==>
              Disable(s, id).value == s.(heap := H.Kfree(s.heap, t.base), given := s.given + 1,
                tasks := s.tasks[k := t.(life := Disabled, base := 0, size := 0, top := 0)]))
      else Disable(s, id) == Some(s)
    ensures Unknown(s, id) ==> Disable(s, id) == Some(s)
  {
    hide Good, FindTask, FreeStack, H.Kfree, H.Freeable;
    assert CallInv(s) by { GoodCalls(s); }
    Named(s, id);
    forall k | 0 <= k < |s.tasks| && Holds(s, k, id) ensures s.tasks[k].life != Running {
      GoodSlot(s, k);
    }
    forall k | 0 <= k < |s.tasks| && Holds(s, k, id) && s.tasks[k].life == Active
      ensures var t := s.tasks[k].(life := Disabled);
        var r := FreeStack(s.(tasks := s.tasks[k := t]), k);
        && (r.Some? <==> H.Freeable(s.heap, t.base)) && (|s.heap.blocks| <= B.LIMIT ==> r.Some?)
        && (r.Some? ==> r.value == s.(heap := H.Kfree(s.heap, t.base), given := s.given + 1,
                                      tasks := s.tasks[k := t.(base := 0, size := 0, top := 0)]))
    {
      GoodSlot(s, k);
      GivesBack(s, k, s.tasks[k].(life := Disabled));
    }
  }

  lemma GoodCalls(s: State)
    requires Good(s)
    ensures CallInv(s) && H.Valid(s.heap) && |s.tasks| == MAX_TASKS
  {
    hide CallInv, H.Valid, StacksOk, Holders;
  }

  // ----- sleeping, waking, yielding

  /** An active task told to sleep for some ticks sleeps until that much later. */
  lemma SleepExactly(s: State, id: nat, ticks: nat)
    requires Good(s)
    ensures forall k :: 0 <= k < |s.tasks| && Holds(s, k, id) ==>
      Sleep(s, id, ticks) ==
        if s.tasks[k].life == Active && ticks > 0
        then s.(tasks := s.tasks[k := s.tasks[k].(life := Sleeping, wakeAt := s.clock + ticks)]) else s
    ensures Unknown(s, id) ==> Sleep(s, id, ticks) == s
  {
    hide Good, FindTask;
    assert CallInv(s) by { GoodCalls(s); }
    Named(s, id);
  }

  /** A sleeping task woken by name is active. */
  lemma WakeExactly(s: State, id: nat)
    requires Good(s)
    ensures forall k :: 0 <= k < |s.tasks| && Holds(s, k, id) ==>
      Wake(s, id) ==
        if s.tasks[k].life == Sleeping then s.(tasks := s.tasks[k := s.tasks[k].(life := Active, wakeAt := 0)]) else s
    ensures Unknown(s, id) ==> Wake(s, id) == s
  {
    hide Good, FindTask;
    assert CallInv(s) by { GoodCalls(s); }
    Named(s, id);
  }

  /** An active task that yields counts as just run. */
  lemma YieldExactly(s: State, id: nat)
    requires Good(s)
    ensures forall k :: 0 <= k < |s.tasks| && Holds(s, k, id) ==>
      Yield(s, id) ==
        if s.tasks[k].life == Active then s.(tasks := s.tasks[k := s.tasks[k].(lastAt := s.clock)]) else s
    ensures Unknown(s, id) ==> Yield(s, id) == s
  {
    hide Good, FindTask;
    assert CallInv(s) by { GoodCalls(s); }
    Named(s, id);
    forall k | 0 <= k < |s.tasks| && Holds(s, k, id) ensures s.tasks[k].life != Running {
      GoodSlot(s, k);
    }
  }

  // ----- entering bodies

  /** The state after the body of slot `k` was entered: the call is on record, a recurring task
      stays active, a one-shot is completed and without its stack. */
  ghost predicate EnteredIn(s: State, u: State, k: nat, pending: bool)
    requires k < |s.tasks|
  {
    var t := s.tasks[k].(lastAt := s.clock, runs := s.tasks[k].runs + 1);
    var called := s.(calls := s.calls + [Call(t.id, s.clock, pending, t.oneshot, t.interval)]);
    if t.oneshot then
      u == called.(heap := H.Kfree(s.heap, t.base), given := s.given + 1,
        tasks := s.tasks[k := t.(life := Completed, base := 0, size := 0, top := 0)])
    else u == called.(tasks := s.tasks[k := t])
  }

  lemma EntersBody(s: State, k: nat, pending: bool)
    requires Good(s) && k < |s.tasks| && s.tasks[k].used && s.tasks[k].life == Active
    ensures var r := Trampoline(s.(tasks := s.tasks[k := s.tasks[k].(lastAt := s.clock)]), k, pending);
      && (r.Some? <==> !s.tasks[k].oneshot || H.Freeable(s.heap, s.tasks[k].base))
      && (|s.heap.blocks| <= B.LIMIT ==> r.Some?)
      && (r.Some? ==> EnteredIn(s, r.value, k, pending))
  {
    hide Good, FreeStack, H.Kfree, H.Freeable;
    GoodSlot(s, k);
    var t := s.tasks[k].(lastAt := s.clock);
    var c := Call(t.id, s.clock, pending, t.oneshot, t.interval);
    var n := t.(life := if t.oneshot then Completed else Active, runs := t.runs + 1);
    var called := s.(calls := s.calls + [c]);
    assert s.tasks[k := t][k := n] == s.tasks[k := n];
    if t.oneshot {
      FreedCalled(s, called, k, n);
    }
  }

  lemma FreedCalled(s: State, called: State, k: nat, n: Task)
    requires Good(s) && called == s.(calls := called.calls) && k < |s.tasks| && s.tasks[k].base != 0
    requires n.base == s.tasks[k].base
    ensures var r := FreeStack(called.(tasks := s.tasks[k := n]), k);
      && (r.Some? <==> H.Freeable(s.heap, n.base)) && (|s.heap.blocks| <= B.LIMIT ==> r.Some?)
      && (r.Some? ==> r.value == called.(heap := H.Kfree(s.heap, n.base), given := s.given + 1,
                                         tasks := s.tasks[k := n.(base := 0, size := 0, top := 0)]))
  {
    hide Good, H.Kfree, H.Freeable, Validates;
    GivesBack(s, k, n);
  }

  /** Run by name, an active task's body is entered at once; any other task's is not. */
  lemma RunNowExactly(s: State, id: nat)
    requires Good(s)
    ensures forall k :: 0 <= k < |s.tasks| && Holds(s, k, id) ==>
      if s.tasks[k].life == Active then
        && (RunNow(s, id).Some? <==> !s.tasks[k].oneshot || H.Freeable(s.heap, s.tasks[k].base))
        && (RunNow(s, id).Some? ==> EnteredIn(s, RunNow(s, id).value, k, false))
      else RunNow(s, id) == Some(s)
    ensures Unknown(s, id) ==> RunNow(s, id) == Some(s)
  {
    hide Good, FindTask, Trampoline, EnteredIn, H.Freeable;
    assert CallInv(s) by { GoodCalls(s); }
    Named(s, id);
    forall k | 0 <= k < |s.tasks| && Holds(s, k, id) && s.tasks[k].life == Active
      ensures var r := Trampoline(s.(tasks := s.tasks[k := s.tasks[k].(lastAt := s.clock)]), k, false);
        && (r.Some? <==> !s.tasks[k].oneshot || H.Freeable(s.heap, s.tasks[k].base))
        && (r.Some? ==> EnteredIn(s, r.value, k, false))
    {
      EntersBody(s, k, false);
    }
  }

  // ----- creating and clearing

  /** A slot that was never used or whose task has ended. */
  predicate Free(t: Task) { !t.used || t.life == Disabled || t.life == Completed }

  lemma FreeSlots(s: State)
    requires Good(s)
    ensures var r := FindAvailable(s.tasks);
      && (r.None? <==> forall k :: 0 <= k < |s.tasks| ==> !Free(s.tasks[k]))
      && (r.Some? ==> r.value < |s.tasks| && Free(s.tasks[r.value]) && s.tasks[r.value].base == 0)
      && (r.Some? ==> forall k :: 0 <= k < r.value ==> !Free(s.tasks[k]))
  {
    hide Good;
    forall k | 0 <= k < |s.tasks| ensures Available(s.tasks[k]) <==> Free(s.tasks[k]) {
      GoodSlot(s, k);
    }
    if FindAvailable(s.tasks).Some? {
      GoodSlot(s, FindAvailable(s.tasks).value);
    }
  }

  /** The heap can give a kernel stack. */
  ghost predicate StackToHave(h: H.State) {
    h.initialized && (H.HasFit(h.blocks, 4096) || (H.RoomInWalk(h.blocks) && H.CanGrow(h, 4096)))
  }

  lemma StackToHaveExactly(h: H.State)
    requires H.Valid(h)
    ensures H.Kmalloc(h, STACK_BYTES).pointer != 0 <==> StackToHave(h)
  {
    hide H.Valid, H.HasFit, H.RoomInWalk, H.CanGrow;
    StackSizeAligned();
    assert H.AlignRequest(STACK_BYTES) == 4096;
    if h.initialized {
      hide H.Kmalloc;
      H.KmallocExactly(h, STACK_BYTES);
    } else {
      KmallocReady(h);
    }
  }

  /** Creating a task succeeds exactly when the scheduler is initialised, there is a body, a
      recurring task has an interval, some slot is free and the heap has a stack to give. The
      lowest free slot then holds a new active task with these arguments, the next id, a last
      run of now and a stack of its own. */
  lemma CreateExactly(s: State, oneshot: bool, interval: nat, entry: nat)
    requires Good(s)
    ensures H.Valid(s.heap)
    ensures var r := Create(s, oneshot, interval, entry);
      && r.Some?
      && (r.value.1 != 0 <==>
            && s.initialized && entry != 0 && (oneshot || interval > 0)
            && (exists k :: 0 <= k < |s.tasks| && Free(s.tasks[k])) && StackToHave(s.heap))
      && (r.value.1 != 0 ==>
            && FindAvailable(s.tasks).Some?
            && var i, p := FindAvailable(s.tasks).value, H.Kmalloc(s.heap, STACK_BYTES);
            && Free(s.tasks[i]) && (forall k :: 0 <= k < i ==> !Free(s.tasks[k]))
            && r.value.1 == s.nextId
            && r.value.0 == s.(heap := p.state, taken := s.taken + 1, nextId := s.nextId + 1,
                 tasks := s.tasks[i := Task(true, s.nextId, Active, oneshot, interval, s.clock, 0, 0,
                                            p.pointer, 4096, p.pointer + 4096, entry)]))
  {
    hide Good, H.Valid, H.Kmalloc, FindAvailable, StackToHave, H.Kfree, Validates;
    GoodCalls(s);
    FreeSlots(s);
    StackToHaveExactly(s.heap);
    assert s.nextId > 0 by { NextIdPositive(s); }
    if s.initialized && entry != 0 && (oneshot || interval > 0) && FindAvailable(s.tasks).Some? {
      var i := FindAvailable(s.tasks).value;
      assert s.tasks[i := s.tasks[i]] == s.tasks;
      var p := H.Kmalloc(s.heap, STACK_BYTES).pointer;
      if p != 0 {
        assert (p + STACK_BYTES) % U32 == p + STACK_BYTES by { TopFits(s.heap); }
      }
    }
  }

  lemma TopFits(h: H.State)
    requires H.Valid(h) && H.Kmalloc(h, STACK_BYTES).pointer != 0
    ensures var p := H.Kmalloc(h, STACK_BYTES).pointer; (p + STACK_BYTES) % U32 == p + STACK_BYTES
  {
    hide H.Valid, H.Kmalloc;
    TakenStack(h, 0);
    BackedInRange(H.Kmalloc(h, STACK_BYTES).state, H.Kmalloc(h, STACK_BYTES).pointer);
  }

  lemma NextIdPositive(s: State)
    requires Good(s)
    ensures s.nextId > 0
  {
    hide Inv;
  }

  /** Clearing blanks exactly the disabled and completed tasks and empties the queue. */
  lemma ClearExactly(s: State)
    requires Good(s)
    ensures var r := ClearInactive(s);
      && r.Some? && |r.value.tasks| == |s.tasks| && r.value == s.(tasks := r.value.tasks, queue := [])
      && forall k :: 0 <= k < |s.tasks| ==>
           r.value.tasks[k] ==
             if s.tasks[k].life == Disabled || s.tasks[k].life == Completed then BLANK else s.tasks[k]
  {
    hide Inv, CallInv, ClearFrom;
    ClearedFrom(s, 0);
  }

  lemma {:induction false} ClearedFrom(s: State, i: nat)
    requires Inv(s) && i <= |s.tasks|
    ensures var r := ClearFrom(s, i);
      && r.Some? && r.value == s.(tasks := r.value.tasks) && |r.value.tasks| == |s.tasks|
      && forall k :: 0 <= k < |s.tasks| ==>
           r.value.tasks[k] ==
             if i <= k && (s.tasks[k].life == Disabled || s.tasks[k].life == Completed) then BLANK else s.tasks[k]
    decreases |s.tasks| - i
  {
    hide H.Valid, StacksOk, Holders, Validates, H.Kfree;
    if i < |s.tasks| {
      var t := s.tasks[i];
      assert TaskOk(t);
      if t.life == Disabled || t.life == Completed {
        KeptStack(s, i, BLANK);
        ClearedFrom(s.(tasks := s.tasks[i := BLANK]), i + 1);
      } else {
        ClearedFrom(s, i + 1);
      }
    }
  }

  // ----- what is ready

  /** Ready by the unbounded clock: active, and a one-shot or at least its interval after its
      last run. */
  predicate Ripe(t: Task, clock: nat) {
    t.used && t.life == Active && t.lastAt <= clock && (t.oneshot || t.lastAt + t.interval <= clock)
  }

  /** The kernel sees a task as ready exactly when it is and, if it recurs, the ticks since its
      last run, in 32 bits, reach the interval; so always when fewer than 2^32 went by. */
  lemma ReadyExactly(t: Task, clock: nat)
    requires t.lastAt <= clock
    ensures IsReady(t, clock) <==> Ripe(t, clock) && (t.oneshot || (clock - t.lastAt) % U32 >= t.interval)
    ensures Ripe(t, clock) && (t.oneshot || clock - t.lastAt < U32) ==> IsReady(t, clock)
  {
    ElapsedIs(clock, t.lastAt);
    if clock - t.lastAt < U32 {
      assert (clock - t.lastAt) % U32 == clock - t.lastAt;
    }
  }

  /** Not run for exactly 2^32 ticks, a recurring task is not seen as ready. */
  lemma LateMissed(t: Task)
    requires t.used && t.life == Active && !t.oneshot && 0 < t.interval < U32
    ensures Ripe(t, t.lastAt + U32) && !IsReady(t, t.lastAt + U32)
  {
    ReadyExactly(t, t.lastAt + U32);
  }
}
