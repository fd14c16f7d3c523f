/** When creations never stray: which pages of the allocator's stack a run can ever hand out,
    and that they must all lie in the kernel's window. */
module ProcessWindow64 {
  import opened UserLayout64
  import opened Wrappers
  import opened AddressSpace64
  import opened Processes64
  import opened ProcessFrames64
  import opened ProcessCreate64
  import opened ProcessRuns64
  import Finite
  import Pmm64

  /** The frames of a full process table. */
  const ALL_FRAMES: nat := MAX_PROCESSES * FRAMES_PER_PROCESS

  /** How many of `n` pages no creation ever writes: those a full table leaves over, or the rest
      that is too small for an address space. */
  function Spare(n: nat): nat {
    if n >= ALL_FRAMES then n - ALL_FRAMES else if n % FRAMES_PER_PROCESS == 11 then 0 else n % FRAMES_PER_PROCESS
  }

  /** Above the spare pages at the bottom, the whole stack lies in the window. */
  ghost predicate Clear(p: Pmm64.State, n: nat) {
    forall j :: Spare(n) <= j < |p.stack| ==> Windowed(p.stack[j])
  }

  lemma {:induction false} LiveBound(procs: seq<Process>)
    ensures Live(procs) <= |procs|
    ensures (exists i :: 0 <= i < |procs| && procs[i].life == Unused) <==> Live(procs) < |procs|
    decreases |procs|
  {
    if procs != [] {
      var front := procs[..|procs| - 1];
      LiveBound(front);
      if i :| 0 <= i < |procs| && procs[i].life == Unused {
        if i < |front| {
          assert front[i].life == Unused;
        }
      }
      if i :| 0 <= i < |front| && front[i].life == Unused {
        assert procs[i].life == Unused;
      }
    }
  }

  /** The free count in a state with a free slot, against the spare pages. */
  lemma Counts(s: System, ctx: Context, pool: set<nat>)
    requires Inv(s, ctx, pool)
    ensures var free, spare := |s.pmm.stack|, Spare(|pool|);
      && (FindUnused(s.procs).None? ==> free == spare)
      && (FindUnused(s.procs).Some? && free >= FRAMES_PER_PROCESS ==> free - FRAMES_PER_PROCESS >= spare)
      && (FindUnused(s.procs).Some? && free == 11 ==> spare == 0)
      && (FindUnused(s.procs).Some? && free < 11 ==> free == spare)
  {
    hide Inv, Live;
    InvPlain(s, ctx, pool);
    Conserved(s, ctx, pool);
    LiveBound(s.procs);
    if FindUnused(s.procs).Some? {
      assert s.procs[FindUnused(s.procs).value].life == Unused;
    }
    Remainder(|s.pmm.stack|, Live(s.procs));
  }

  lemma Remainder(free: nat, live: nat)
    ensures (free + FRAMES_PER_PROCESS * live) % FRAMES_PER_PROCESS == free % FRAMES_PER_PROCESS
    ensures free >= FRAMES_PER_PROCESS ==> free % FRAMES_PER_PROCESS <= free - FRAMES_PER_PROCESS
  {
  }

  // ----- a clear stack stays clear and never strays

  lemma ClearNoStray(s: System, ctx: Context, pool: set<nat>)
    requires Inv(s, ctx, pool) && Clear(s.pmm, |pool|) && FindUnused(s.procs).Some?
    ensures !Strays(s.pmm)
  {
    hide Inv, FindUnused, Windowed, Spare;
    Counts(s, ctx, pool);
  }

  /** A creation leaves the stack clear. */
  lemma CreatedClear(s: System, t: System, ctx: Context, pool: set<nat>)
    requires Inv(s, ctx, pool) && Inv(t, ctx, pool) && Clear(s.pmm, |pool|)
    requires Popped(s, t) || t == s || (SameProcesses(s, t) && FindUnused(s.procs).Some? && |s.pmm.stack| < 12)
    ensures Clear(t.pmm, |pool|)
  {
    hide Inv, FindUnused, Windowed, Spare;
    Counts(s, ctx, pool);
    if !Popped(s, t) && t != s && |s.pmm.stack| == 11 {
      FreeIsRest(s, ctx, pool);
      FreeIsRest(t, ctx, pool);
      forall j | 0 <= j < |t.pmm.stack| ensures Windowed(t.pmm.stack[j]) {
        assert t.pmm.stack[j] in Finite.Elements(t.pmm.stack);
        assert t.pmm.stack[j] in Finite.Elements(s.pmm.stack);
        var k :| 0 <= k < |s.pmm.stack| && s.pmm.stack[k] == t.pmm.stack[j];
      }
    }
  }

  lemma StepClear(s: System, ctx: Context, pool: set<nat>, op: Op)
    requires Inv(s, ctx, pool) && Staged(op) && Clear(s.pmm, |pool|)
    ensures Shaped(s) && !Step(s, op).strayed && Clear(Step(s, op).pmm, |pool|)
  {
    hide Inv, CreateKernel, CreateUser, Store, SameOutside, HeldBy, UserFrames, Shaped, ReapSlot, Strays,
      AcceptableImage, FindUnused, Windowed, Spare, WritesFreeOnly, Loaded;
    StepKeeps(s, ctx, pool, op);
    InvPlain(s, ctx, pool);
    if FindUnused(s.procs).Some? {
      ClearNoStray(s, ctx, pool);
    }
    match op {
      case NewKernel(entry) =>
        CreateKernelExact(s, ctx, pool, entry);
        CreatedClear(s, Step(s, op), ctx, pool);
      case NewUser(image) =>
        CreateUserExact(s, ctx, pool, image);
        CreatedClear(s, Step(s, op), ctx, pool);
      case ReapPid(pid) =>
        if FindPid(s.procs, pid).Some? {
          ReapSlotExact(s, ctx, pool, FindPid(s.procs, pid).value);
        }
      case StoreByte(i, va, value) => StoreKeeps(s, ctx, pool, i, va, value);
      case _ =>
    }
  }

  lemma {:induction false} RunClear(s: System, ctx: Context, pool: set<nat>, ops: seq<Op>)
    requires Inv(s, ctx, pool) && AllStaged(ops) && Clear(s.pmm, |pool|)
    ensures var t := Run(s, ctx, pool, ops); !t.strayed && Clear(t.pmm, |pool|)
    decreases |ops|
  {
    hide Inv, Step, Staged, Shaped, StraysOn, Clear;
    InvPlain(s, ctx, pool);
    if ops != [] {
      assert Staged(ops[0]);
      StepKeeps(s, ctx, pool, ops[0]);
      StepClear(s, ctx, pool, ops[0]);
      RunClear(Step(s, ops[0]), ctx, pool, ops[1..]);
    }
  }

  // ----- a stack that is not clear strays

  function Creations(n: nat): (ops: seq<Op>)
    ensures |ops| == n && forall k :: 0 <= k < n ==> ops[k] == NewKernel(1)
  {
    seq(n, _ => NewKernel(1))
  }

  /** As many creations as there are free slots hand out everything but the spare pages. */
  lemma {:induction false} Drained(s: System, ctx: Context, pool: set<nat>, n: nat)
    requires Inv(s, ctx, pool) && Live(s.procs) + n >= MAX_PROCESSES
    requires !Run(s, ctx, pool, Creations(n)).strayed
    ensures Clear(s.pmm, |pool|)
    decreases n
  {
    hide Inv, CreateKernel, FindUnused, Windowed, Spare, Shaped, Live, WritesFreeOnly;
    InvPlain(s, ctx, pool);
    Counts(s, ctx, pool);
    LiveUnused(s.procs);
    if FindUnused(s.procs).Some? && |s.pmm.stack| >= 11 {
      assert Creations(n)[0] == NewKernel(1) && Creations(n)[1..] == Creations(n - 1);
      StepKeeps(s, ctx, pool, NewKernel(1));
      CreateKernelExact(s, ctx, pool, 1);
      var t := CreateKernel(s, 1).0;
      assert Run(s, ctx, pool, Creations(n)) == Run(t, ctx, pool, Creations(n - 1));
      if |s.pmm.stack| >= FRAMES_PER_PROCESS {
        LiveAdded(s.procs, FindUnused(s.procs).value, t.procs[FindUnused(s.procs).value]);
        Drained(t, ctx, pool, n - 1);
        assert forall j :: 0 <= j < |t.pmm.stack| ==> t.pmm.stack[j] == s.pmm.stack[j];
      }
    }
  }

  lemma LiveUnused(procs: seq<Process>)
    ensures FindUnused(procs).Some? ==> Live(procs) < |procs|
  {
    hide Live;
    LiveBound(procs);
  }

  lemma {:induction false} LiveAdded(procs: seq<Process>, i: nat, p: Process)
    requires i < |procs| && procs[i].life == Unused && p.life != Unused
    ensures Live(procs[i := p]) == Live(procs) + 1
    decreases |procs|
  {
    var front, ps := procs[..|procs| - 1], procs[i := p];
    if i < |front| {
      LiveAdded(front, i, p);
      assert ps[..|ps| - 1] == front[i := p];
    } else {
      assert ps[..|ps| - 1] == front;
    }
  }

  /** No run ever strays, whatever it creates, reaps, runs and stores, exactly when every page
      above the spare ones lies in the kernel's window; sixty-four creations show the contrary. */
  lemma NeverStraysExactly(s: System, ctx: Context, pool: set<nat>)
    requires Inv(s, ctx, pool)
    ensures (forall ops :: AllStaged(ops) ==> !Run(s, ctx, pool, ops).strayed) <==> Clear(s.pmm, |pool|)
  {
    hide Inv, Run, Clear, Live;
    if Clear(s.pmm, |pool|) {
      forall ops | AllStaged(ops) ensures !Run(s, ctx, pool, ops).strayed {
        RunClear(s, ctx, pool, ops);
      }
    } else {
      assert AllStaged(Creations(MAX_PROCESSES));
      if !Run(s, ctx, pool, Creations(MAX_PROCESSES)).strayed {
        Drained(s, ctx, pool, MAX_PROCESSES);
      }
    }
  }
}
