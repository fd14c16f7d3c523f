/** Process identifiers: unique until the 32-bit counter wraps, and what reaping every
    finished user process does while they are. */
module ProcessPids64 {
  import opened MachineWords
  import opened UserLayout64
  import opened Wrappers
  import opened AddressSpace64
  import opened Processes64
  import opened ProcessFrames64
  import opened ProcessCreate64
  import opened ProcessRuns64

  /** Live slots carry different nonzero pids below the next one. */
  ghost predicate PidsUnique(s: System) {
    && (forall i :: 0 <= i < |s.procs| && s.procs[i].life != Unused ==> 0 < s.procs[i].pid < s.nextPid)
    && (forall i, j :: 0 <= i < j < |s.procs| && s.procs[i].life != Unused && s.procs[j].life != Unused ==>
          s.procs[i].pid != s.procs[j].pid)
  }

  /** A pid then names one slot. */
  lemma PidFindsSlot(s: System, k: nat)
    requires PidsUnique(s) && k < |s.procs| && s.procs[k].life != Unused
    ensures FindPid(s.procs, s.procs[k].pid) == Some(k)
  {
    assert s.procs[k].pid == s.procs[k].pid;
  }

  lemma AddedPids(s: System, t: System, i: nat, p: Process)
    requires PidsUnique(s) && 0 < s.nextPid < U32 - 1 && Added(s, t, i, p)
    ensures PidsUnique(t) && t.nextPid == s.nextPid + 1
  {
  }

  lemma RelabelledPids(s: System, i: nat, q: Process)
    requires PidsUnique(s) && i < |s.procs| && s.procs[i].life != Unused && q.pid == s.procs[i].pid
    ensures PidsUnique(s.(procs := s.procs[i := q]))
  {
  }

  lemma ReapedPids(s: System, i: nat, t: System)
    requires PidsUnique(s) && i < |s.procs| && t == s.(pmm := t.pmm, procs := s.procs[i := EMPTY])
    ensures PidsUnique(t)
  {
  }

  /** Every step keeps pids unique as long as the counter has not run out. */
  lemma StepPids(s: System, ctx: Context, pool: set<nat>, op: Op)
    requires Inv(s, ctx, pool) && Staged(op) && PidsUnique(s) && 0 < s.nextPid < U32 - 1
    ensures Shaped(s)
    ensures var t := Step(s, op); !t.strayed ==> PidsUnique(t) && s.nextPid <= t.nextPid <= s.nextPid + 1
  {
    hide Inv, CreateKernel, CreateUser, Store, Shaped, WritesFreeOnly, Loaded, PidsUnique, ReapSlot, Added, FindUnused;
    InvShaped(s, ctx, pool);
    InvPlain(s, ctx, pool);
    match op {
      case NewKernel(entry) => CreatedKernelPids(s, ctx, pool, entry);
      case NewUser(image) => CreatedUserPids(s, ctx, pool, image);
      case Exit(pid, code) =>
        if FindPid(s.procs, pid).Some? {
          var i := FindPid(s.procs, pid).value;
          RelabelledPids(s, i, s.procs[i].(life := Exited, exitCode := code));
        }
      case ReapPid(pid) =>
        if FindPid(s.procs, pid).Some? {
          var i := FindPid(s.procs, pid).value;
          ReapSlotExact(s, ctx, pool, i);
          ReapedPids(s, i, ReapSlot(s, i));
        }
      case RunKernel(i, left) =>
        if i < |s.procs| && s.procs[i].life == Ready {
          var u := s.(mem := RunSlot(s, i, left).mem);
          SamePids(s, u);
          RelabelledPids(u, i, s.procs[i].(life := Failed));
          RelabelledPids(u, i, s.procs[i].(life := Exited, exitCode := 0));
        }
      case StoreByte(i, va, value) =>
        StoreKeeps(s, ctx, pool, i, va, value);
        SamePids(s, Store(s, i, va, value));
    }
  }

  lemma SamePids(s: System, t: System)
    requires PidsUnique(s) && t.procs == s.procs && t.nextPid == s.nextPid
    ensures PidsUnique(t)
  {
  }

  lemma CreatedKernelPids(s: System, ctx: Context, pool: set<nat>, entry: nat)
    requires Inv(s, ctx, pool) && PidsUnique(s) && 0 < s.nextPid < U32 - 1
    ensures Shaped(s)
    ensures var t := CreateKernel(s, entry).0;
      !t.strayed ==> PidsUnique(t) && s.nextPid <= t.nextPid <= s.nextPid + 1
  {
    hide Inv, CreateKernel, Shaped, WritesFreeOnly, PidsUnique, Added, FindUnused, Strays;
    CreateKernelExact(s, ctx, pool, entry);
    var t := CreateKernel(s, entry).0;
    if t.strayed {
    } else if SameProcesses(s, t) {
      SamePids(s, t);
    } else {
      var i := FindUnused(s.procs).value;
      AddedPids(s, t, i, t.procs[i]);
    }
  }

  lemma CreatedUserPids(s: System, ctx: Context, pool: set<nat>, m: Image)
    requires Inv(s, ctx, pool) && PidsUnique(s) && 0 < s.nextPid < U32 - 1 && |m.staged| == IMAGE_MAX
    ensures Shaped(s)
    ensures var t := CreateUser(s, m).0;
      !t.strayed ==> PidsUnique(t) && s.nextPid <= t.nextPid <= s.nextPid + 1
  {
    hide Inv, CreateUser, Shaped, WritesFreeOnly, Loaded, PidsUnique, Added, FindUnused, Strays, AcceptableImage;
    CreateUserExact(s, ctx, pool, m);
    var t := CreateUser(s, m).0;
    if t.strayed {
    } else if SameProcesses(s, t) {
      SamePids(s, t);
    } else {
      var i := FindUnused(s.procs).value;
      AddedPids(s, t, i, t.procs[i]);
    }
  }

  /** Over every run with fewer steps than pids left, pids stay unique. */
  lemma {:induction false} RunPids(s: System, ctx: Context, pool: set<nat>, ops: seq<Op>)
    requires Inv(s, ctx, pool) && AllStaged(ops) && PidsUnique(s) && 0 < s.nextPid && s.nextPid + |ops| < U32
    ensures var t := Run(s, ctx, pool, ops); !t.strayed ==> PidsUnique(t)
    decreases |ops|
  {
    hide Inv, Step, Staged, Shaped, PidsUnique, StraysOn;
    InvPlain(s, ctx, pool);
    if ops != [] {
      assert Staged(ops[0]);
      StepKeeps(s, ctx, pool, ops[0]);
      if Step(s, ops[0]).strayed {
        return;
      }
      StepPids(s, ctx, pool, ops[0]);
      RunPids(Step(s, ops[0]), ctx, pool, ops[1..]);
    }
  }

  /** A caller sees the creation of a kernel process in the result exactly when the counter is
      not at zero: after 2^32 creations a process is made whose pid reads as failure. */
  lemma CreationReported(s: System, ctx: Context, pool: set<nat>, entry: nat)
    requires Inv(s, ctx, pool)
    ensures Shaped(s)
    ensures CreateKernel(s, entry).1 != 0 <==>
      s.nextPid != 0 && entry != 0 && FindUnused(s.procs).Some? && |s.pmm.stack| >= FRAMES_PER_PROCESS && !Strays(s.pmm)
  {
    hide Inv, CreateKernel, Shaped, WritesFreeOnly, FindUnused, Strays;
    CreateKernelExact(s, ctx, pool, entry);
  }

  // ----- reaping all finished user processes

  /** `x86_64_process_reap_exited_user_processes` from slot `i` on: the state and the count. */
  function ReapFrom(s: System, i: nat): (r: (System, nat))
    requires i <= |s.procs|
    ensures |r.0.procs| == |s.procs|
    decreases |s.procs| - i
  {
    if i == |s.procs| then (s, 0)
    else if !Reapable(s.procs[i]) then ReapFrom(s, i + 1)
    else
      var t := Reap(s, s.procs[i].pid);
      var reaped := match FindPid(s.procs, s.procs[i].pid) case None => 0 case Some(k) =>
        if Reapable(s.procs[k]) then 1 else 0;
      var r := ReapFrom(t, i + 1);
      (r.0, reaped + r.1)
  }

  /** A user process that exited or failed. */
  predicate Finished(p: Process) { p.mode == UserMode && (p.life == Exited || p.life == Failed) }

  /** The table with every finished user process from slot `i` on cleared. */
  function Cleared(procs: seq<Process>, i: nat): (ps: seq<Process>)
    ensures |ps| == |procs|
  {
    seq(|procs|, j requires 0 <= j < |procs| => if i <= j && Finished(procs[j]) then EMPTY else procs[j])
  }

  function FinishedCount(procs: seq<Process>, i: nat): nat
    requires i <= |procs|
    decreases |procs| - i
  {
    if i == |procs| then 0 else (if Finished(procs[i]) then 1 else 0) + FinishedCount(procs, i + 1)
  }

  lemma {:induction false} CountIgnoresPrefix(procs: seq<Process>, ps: seq<Process>, i: nat)
    requires i <= |procs| == |ps| && forall j :: i <= j < |procs| ==> procs[j] == ps[j]
    ensures FinishedCount(procs, i) == FinishedCount(ps, i)
    decreases |procs| - i
  {
    if i < |procs| {
      CountIgnoresPrefix(procs, ps, i + 1);
    }
  }

  /** With unique pids the scan clears exactly the finished user processes, counts them, and
      returns twelve pages for each. */
  lemma {:induction false} ReapAllExact(s: System, ctx: Context, pool: set<nat>, i: nat)
    requires Inv(s, ctx, pool) && PidsUnique(s) && i <= |s.procs|
    ensures var r := ReapFrom(s, i);
      && Inv(r.0, ctx, pool) && PidsUnique(r.0)
      && r.0 == s.(pmm := r.0.pmm, procs := Cleared(s.procs, i))
      && r.1 == FinishedCount(s.procs, i)
      && |r.0.pmm.stack| == |s.pmm.stack| + FRAMES_PER_PROCESS * r.1
    decreases |s.procs| - i
  {
    hide Inv, PidsUnique, ReapSlot;
    if i == |s.procs| {
      assert Cleared(s.procs, i) == s.procs;
    } else if !Reapable(s.procs[i]) {
      ReapAllExact(s, ctx, pool, i + 1);
      assert Cleared(s.procs, i) == Cleared(s.procs, i + 1);
    } else {
      PidFindsSlot(s, i);
      var t := Reap(s, s.procs[i].pid);
      ReapSlotExact(s, ctx, pool, i);
      ReapedPids(s, i, t);
      ReapAllExact(t, ctx, pool, i + 1);
      assert Cleared(s.procs, i) == Cleared(t.procs, i + 1);
      CountIgnoresPrefix(s.procs, t.procs, i + 1);
    }
  }
}
