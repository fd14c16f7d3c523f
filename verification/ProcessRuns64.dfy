/** Whole runs of the process table together with the stores user programs make: frame
    conservation, isolation, and untouched kernel memory. */
module ProcessRuns64 {
  import opened MachineWords
  import opened UserLayout64
  import opened Wrappers
  import opened Paging64
  import opened AddressSpace64
  import opened SpaceInstall64
  import opened Processes64
  import opened ProcessFrames64
  import opened ProcessCreate64
  import Finite
  import Pmm64

  // ----- conservation

  function Live(procs: seq<Process>): nat {
    if procs == [] then 0
    else Live(procs[..|procs| - 1]) + (if procs[|procs| - 1].life == Unused then 0 else 1)
  }

  lemma HeldSnoc(procs: seq<Process>, p: Process)
    ensures HeldBy(procs + [p]) == HeldBy(procs) + Owned(p)
  {
    hide Owned;
    var all := procs + [p];
    assert all[|procs|] == p;
    assert forall k :: 0 <= k < |procs| ==> all[k] == procs[k];
  }

  lemma {:induction false} HeldCount(mem: Memory, ctx: Context, procs: seq<Process>)
    requires Apart(procs) && forall i :: 0 <= i < |procs| ==> SlotOk(mem, ctx, procs[i])
    ensures |HeldBy(procs)| == FRAMES_PER_PROCESS * Live(procs)
  {
    hide Owned, SlotOk;
    if procs == [] {
      assert HeldBy(procs) == {};
    } else {
      var front, p := procs[..|procs| - 1], procs[|procs| - 1];
      assert procs == front + [p];
      HeldCount(mem, ctx, front);
      HeldSnoc(front, p);
      assert Owned(p) !! HeldBy(front);
      assert SlotOk(mem, ctx, p);
      if p.life == Unused {
        EmptyHolds(mem, ctx, p);
        assert HeldBy(front) + {} == HeldBy(front);
      } else {
        OwnedTwelve(mem, ctx, p);
        assert |HeldBy(front) + Owned(p)| == |HeldBy(front)| + |Owned(p)|;
      }
    }
  }

  lemma EmptyHolds(mem: Memory, ctx: Context, p: Process)
    requires SlotOk(mem, ctx, p) && p.life == Unused
    ensures Owned(p) == {}
  {
    EmptyOwnsNothing();
  }

  /** Every page tracked at boot is free or one of a live process's twelve. */
  lemma Conserved(s: System, ctx: Context, pool: set<nat>)
    requires Inv(s, ctx, pool)
    ensures |s.pmm.stack| + FRAMES_PER_PROCESS * Live(s.procs) == |pool|
  {
    hide SlotOk, Apart, HeldBy, Pmm64.Splits, SourceOk;
    Pmm64.FreeCount(s.pmm, HeldBy(s.procs), pool);
    HeldCount(s.mem, ctx, s.procs);
  }

  // ----- user stores

  /** What a user program's store of one byte does, as the walk of its address allows. */
  function Store(s: System, i: nat, va: nat, value: nat): System {
    if i >= |s.procs| || s.procs[i].life == Unused then s
    else match Walk(s.mem, s.procs[i].space.cr3, va)
      case None => s
      case Some(leaf) => if leaf.user && leaf.writable then Poke(s, leaf.phys, value) else s
  }

  function Poke(s: System, phys: nat, value: nat): System {
    var f := FrameOf(phys);
    if f in s.mem && s.mem[f].Data? && |s.mem[f].bytes| == PAGE
    then s.(mem := s.mem[f := Data(WithWord(s.mem[f].bytes, phys % PAGE, value))])
    else s
  }

  /** A store reaches only a code page or the stack page of the process itself. */
  lemma StoreTarget(s: System, ctx: Context, pool: set<nat>, i: nat, va: nat)
    requires Inv(s, ctx, pool) && i < |s.procs| && s.procs[i].life != Unused
    ensures var l := Walk(s.mem, s.procs[i].space.cr3, va);
      l.Some? && l.value.user ==>
        FrameOf(l.value.phys) in s.procs[i].space.code || FrameOf(l.value.phys) == s.procs[i].space.stack
  {
    hide Built, Walk, Apart, HeldBy, Pmm64.Splits, SoundSource, Pmm64.Distinct, FrameOf;
    var p := s.procs[i];
    assert SlotOk(s.mem, ctx, p);
    var l := Walk(s.mem, p.space.cr3, va);
    if l.Some? && l.value.user {
      UserReachesOnly(s.mem, ctx, p.space, p.flags, p.count, va, FrameOf(l.value.phys));
    }
  }

  /** The pages user mode may hold rights to. */
  ghost function UserFrames(p: Process): set<nat> { set f | f in p.space.code + [p.space.stack] }

  /** The pages that hold a process's bytes instead of its tables. */
  ghost function DataFrames(p: Process): set<nat> { UserFrames(p) + {p.kernelStack} }

  lemma TablesApart(p: Process)
    requires |p.space.code| == MAX_PAGES && 0 !in Frames(p) && Pmm64.Distinct(Frames(p))
    ensures forall f :: f in TablesOf(p.space) ==> f !in DataFrames(p)
    ensures p.kernelStack !in UserFrames(p)
  {
    var fs, user := Frames(p), p.space.code + [p.space.stack];
    assert TablesOf(p.space) == fs[..6];
    assert user == fs[6..11] && fs[11] == p.kernelStack;
    forall k, l | 0 <= k < 6 && 0 <= l < 5 ensures TablesOf(p.space)[k] != user[l] {
      assert fs[k] != fs[6 + l];
    }
    forall k | 0 <= k < 6 ensures TablesOf(p.space)[k] != p.kernelStack {
      assert fs[k] != fs[11];
    }
    forall l | 0 <= l < 5 ensures user[l] != p.kernelStack {
      assert fs[6 + l] != fs[11];
    }
  }

  lemma UserFramesOwned(p: Process)
    requires 0 !in Frames(p)
    ensures UserFrames(p) <= DataFrames(p) <= Owned(p)
    ensures forall f :: f in TablesOf(p.space) ==> f in Owned(p)
    ensures p.kernelStack in DataFrames(p)
  {
    FramesListed(p.space);
    TablesListed(p.space);
    assert forall f :: f in FramesOf(p.space) ==> f in Frames(p);
    assert Frames(p)[|FramesOf(p.space)|] == p.kernelStack;
  }

  lemma OwnedInPool(s: System, ctx: Context, pool: set<nat>, i: nat)
    requires Inv(s, ctx, pool) && i < |s.procs|
    ensures Owned(s.procs[i]) <= pool
  {
    hide SlotOk, SourceOk, Apart, Owned;
    SlotHeld(s.procs, i);
  }

  /** Writes confined to one process's code and stack pages disturb no table at all. */
  lemma DataWritesKeep(s: System, ctx: Context, pool: set<nat>, i: nat, m: Memory, written: set<nat>)
    requires Inv(s, ctx, pool) && i < |s.procs| && s.procs[i].life != Unused
    requires SameOutside(s.mem, m, written) && written <= DataFrames(s.procs[i])
    ensures SourceOk(m, ctx, pool)
    ensures forall j :: 0 <= j < |s.procs| ==> SlotOk(m, ctx, s.procs[j])
  {
    hide Built, Apart, HeldBy, Pmm64.Splits, SoundSource, Pmm64.Distinct, SameOutside, Owned, DataFrames, FramesOf,
      TablesOf, Aligned;
    var p := s.procs[i];
    assert SlotOk(s.mem, ctx, p);
    assert |p.space.code| == MAX_PAGES by { AlignedCode(p); }
    UserFramesOwned(p);
    OwnedInPool(s, ctx, pool, i);
    assert SourceOk(m, ctx, pool) by { SourceStays(s.mem, m, ctx, pool, written); }
    forall j | 0 <= j < |s.procs| ensures SlotOk(m, ctx, s.procs[j]) {
      var q := s.procs[j];
      assert SlotOk(s.mem, ctx, q);
      if q.life != Unused {
        if j == i {
          TablesApart(q);
        } else {
          UserFramesOwned(q);
          SlotsApart(s.procs, i, j);
        }
        BuiltKept(s.mem, m, written, ctx, q.space, q.flags, q.count);
      }
    }
  }

  lemma AlignedCode(p: Process)
    requires Aligned(p.space, p.flags, p.count)
    ensures |p.space.code| == MAX_PAGES
  {
  }

  lemma SlotsApart(procs: seq<Process>, i: nat, j: nat)
    requires Apart(procs) && i < |procs| && j < |procs| && i != j
    ensures Owned(procs[i]) !! Owned(procs[j])
  {
    if i > j {
      assert Owned(procs[j]) !! Owned(procs[i]);
    }
  }

  lemma SourceStays(mem: Memory, m: Memory, ctx: Context, pool: set<nat>, written: set<nat>)
    requires SourceOk(mem, ctx, pool) && SameOutside(mem, m, written) && written <= pool
    ensures SourceOk(m, ctx, pool)
  {
    TableKept(mem, m, written, ctx.pml4);
    TableKept(mem, m, written, ctx.pdpt);
    TableKept(mem, m, written, ctx.pd);
    SourceKept(mem, m, ctx);
  }

  /** A user program's store keeps the invariant and writes only its own pages. */
  lemma StoreKeeps(s: System, ctx: Context, pool: set<nat>, i: nat, va: nat, value: nat)
    requires Inv(s, ctx, pool)
    ensures var t := Store(s, i, va, value);
      && Inv(t, ctx, pool) && t == s.(mem := t.mem)
      && (if i < |s.procs| then SameOutside(s.mem, t.mem, UserFrames(s.procs[i])) else t == s)
  {
    hide SlotOk, Apart, HeldBy, Pmm64.Splits, SourceOk, Walk, FrameOf;
    var t := Store(s, i, va, value);
    if i < |s.procs| && s.procs[i].life != Unused {
      StoreTarget(s, ctx, pool, i, va);
      assert SameOutside(s.mem, t.mem, UserFrames(s.procs[i]));
      DataWritesKeep(s, ctx, pool, i, t.mem, UserFrames(s.procs[i]));
    }
  }

  // ----- steps and runs

  datatype Op =
    | NewKernel(entry: nat)
    | NewUser(image: Image)
    | Exit(pid: nat, code: nat)
    | ReapPid(pid: nat)
    | RunKernel(slot: nat, left: seq<nat>)
    | StoreByte(slot: nat, va: nat, value: nat)

  /** The staging buffer handed to creation and the stack a body leaves have their sizes. */
  predicate Staged(op: Op) {
    (op.NewUser? ==> |op.image.staged| == IMAGE_MAX) && (op.RunKernel? ==> |op.left| == PAGE)
  }

  function Step(s: System, op: Op): System
    requires (s.strayed || Shaped(s)) && Staged(op)
  {
    if s.strayed then s else match op
    case NewKernel(entry) => CreateKernel(s, entry).0
    case NewUser(image) => CreateUser(s, image).0
    case Exit(pid, code) => MarkExited(s, pid, code)
    case ReapPid(pid) => Reap(s, pid)
    case RunKernel(slot, left) => if slot < |s.procs| then RunSlot(s, slot, left) else s
    case StoreByte(slot, va, value) => Store(s, slot, va, value)
  }

  /** A change of life, exit code or mode-free fields keeps what a slot owns. */
  lemma SlotRelabelled(s: System, ctx: Context, pool: set<nat>, i: nat, q: Process)
    requires Inv(s, ctx, pool) && i < |s.procs| && s.procs[i].life != Unused
    requires q.life != Unused && q == s.procs[i].(life := q.life, exitCode := q.exitCode)
    ensures Inv(s.(procs := s.procs[i := q]), ctx, pool)
  {
    hide Built, SourceOk, Aligned, Pmm64.Splits, Pmm64.Distinct, Pmm64.Got, FramesOf, HeldBy, Apart;
    var t := s.(procs := s.procs[i := q]);
    assert SlotOk(s.mem, ctx, s.procs[i]);
    HeldReplace(s.procs, i, q);
    SlotHeld(s.procs, i);
    assert Owned(q) == Owned(s.procs[i]);
    assert HeldBy(s.procs) - Owned(q) + Owned(q) == HeldBy(s.procs);
    forall j | 0 <= j < |t.procs| ensures SlotOk(t.mem, ctx, t.procs[j]) {
      if j != i {
        assert SlotOk(s.mem, ctx, s.procs[j]);
      }
    }
  }

  /** A kernel process that ran: relabelled, its kernel stack page overwritten. */
  lemma RanKeeps(s: System, ctx: Context, pool: set<nat>, i: nat, left: seq<nat>)
    requires Inv(s, ctx, pool) && i < |s.procs|
    ensures Inv(RunSlot(s, i, left), ctx, pool) && |RunSlot(s, i, left).procs| == |s.procs|
    ensures SameOutside(s.mem, RunSlot(s, i, left).mem, {s.procs[i].kernelStack})
  {
    hide Built, SourceOk, Pmm64.Splits, HeldBy, Apart, Owned, UserFrames, Aligned, Pmm64.Distinct, Reached;
    var p, t := s.procs[i], RunSlot(s, i, left);
    if p.life == Ready {
      assert SlotOk(s.mem, ctx, p);
      UserFramesOwned(p);
      DataWritesKeep(s, ctx, pool, i, t.mem, {p.kernelStack});
      var u := s.(mem := t.mem);
      SlotRelabelled(u, ctx, pool, i, p.(life := Failed));
      SlotRelabelled(u, ctx, pool, i, p.(life := Exited, exitCode := 0));
    }
  }

  /** The frames a step may write: free ones; for a store the storing process's user pages; for
      a run the kernel stack page of the process that runs. */
  ghost function MayWrite(s: System, op: Op, pool: set<nat>): set<nat> {
    if op.StoreByte? then (if op.slot < |s.procs| then UserFrames(s.procs[op.slot]) else {})
    else if op.RunKernel? then (if op.slot < |s.procs| then {s.procs[op.slot].kernelStack} else {})
    else pool - HeldBy(s.procs)
  }

  lemma SameMemory(mem: Memory, written: set<nat>)
    ensures SameOutside(mem, mem, written)
  {
  }

  /** A creation that gets as far as writing a page outside the kernel's window. */
  predicate StraysOn(s: System, op: Op) {
    && Strays(s.pmm) && FindUnused(s.procs).Some?
    && ((op.NewKernel? && op.entry != 0) || (op.NewUser? && AcceptableImage(op.image)))
  }

  /** Every step keeps the invariant and writes only where it may, unless it is a creation that
      strays. */
  lemma StepKeeps(s: System, ctx: Context, pool: set<nat>, op: Op)
    requires Inv(s, ctx, pool) && Staged(op)
    ensures Shaped(s) && (Step(s, op).strayed <==> StraysOn(s, op))
    ensures !Step(s, op).strayed ==> Inv(Step(s, op), ctx, pool) && |Step(s, op).procs| == |s.procs|
    ensures !Step(s, op).strayed ==> SameOutside(s.mem, Step(s, op).mem, MayWrite(s, op, pool))
  {
    hide Inv, CreateKernel, CreateUser, Store, SameOutside, HeldBy, UserFrames, Shaped, ReapSlot, Strays, RunSlot,
      AcceptableImage, FindUnused;
    InvShaped(s, ctx, pool);
    InvPlain(s, ctx, pool);
    SameMemory(s.mem, MayWrite(s, op, pool));
    match op {
      case NewKernel(entry) => CreateKernelExact(s, ctx, pool, entry);
      case NewUser(image) => CreateUserExact(s, ctx, pool, image);
      case Exit(pid, code) =>
        if FindPid(s.procs, pid).Some? {
          var i := FindPid(s.procs, pid).value;
          SlotRelabelled(s, ctx, pool, i, s.procs[i].(life := Exited, exitCode := code));
        }
      case ReapPid(pid) =>
        if FindPid(s.procs, pid).Some? {
          ReapSlotExact(s, ctx, pool, FindPid(s.procs, pid).value);
        }
      case RunKernel(i, left) =>
        if i < |s.procs| {
          RanKeeps(s, ctx, pool, i, left);
        }
      case StoreByte(i, va, value) => StoreKeeps(s, ctx, pool, i, va, value);
    }
    if Inv(Step(s, op), ctx, pool) {
      InvPlain(Step(s, op), ctx, pool);
    }
  }

  ghost predicate AllStaged(ops: seq<Op>) { forall k :: 0 <= k < |ops| ==> Staged(ops[k]) }

  ghost predicate Sound(s: System, ctx: Context, pool: set<nat>) { s.strayed || Inv(s, ctx, pool) }

  ghost function Run(s: System, ctx: Context, pool: set<nat>, ops: seq<Op>): (t: System)
    requires Sound(s, ctx, pool) && AllStaged(ops)
    ensures Sound(t, ctx, pool) && (s.strayed ==> t == s)
    decreases |ops|
  {
    hide Inv, Step, SameOutside, MayWrite, Staged, Shaped, StraysOn;
    if ops == [] || s.strayed then s
    else
      assert Staged(ops[0]);
      StepKeeps(s, ctx, pool, ops[0]);
      Run(Step(s, ops[0]), ctx, pool, ops[1..])
  }

  /** A store or run of a slot that is not in use does nothing. */
  predicate Idle(s: System, op: Op) {
    (op.StoreByte? || op.RunKernel?) && op.slot < |s.procs| && s.procs[op.slot].life == Unused
  }

  lemma MayWriteInPool(s: System, ctx: Context, pool: set<nat>, op: Op)
    requires Inv(s, ctx, pool)
    ensures MayWrite(s, op, pool) <= pool || Idle(s, op)
  {
    hide Built, SourceOk, Apart, HeldBy, Owned, UserFrames, Pmm64.Splits, Pmm64.Distinct, Reached;
    if (op.StoreByte? || op.RunKernel?) && !Idle(s, op) && op.slot < |s.procs| {
      assert SlotOk(s.mem, ctx, s.procs[op.slot]);
      UserFramesOwned(s.procs[op.slot]);
      OwnedInPool(s, ctx, pool, op.slot);
    }
  }

  lemma StepOutside(s: System, ctx: Context, pool: set<nat>, op: Op)
    requires Inv(s, ctx, pool) && Staged(op)
    ensures Shaped(s) && (!Step(s, op).strayed ==> SameOutside(s.mem, Step(s, op).mem, pool))
  {
    hide Inv, SameOutside, CreateKernel, CreateUser, MarkExited, Reap, Shaped, HeldBy, UserFrames, StraysOn;
    StepKeeps(s, ctx, pool, op);
    MayWriteInPool(s, ctx, pool, op);
    if Step(s, op).strayed {
    } else if MayWrite(s, op, pool) <= pool {
      WrittenWider(s.mem, Step(s, op).mem, MayWrite(s, op, pool), pool);
    } else {
      SameMemory(s.mem, pool);
    }
  }

  /** Over every run that does not stray: no frame is lost or gained, and no frame outside the
      allocator's pool changes, whatever user programs store. */
  lemma {:induction false} RunConserves(s: System, ctx: Context, pool: set<nat>, ops: seq<Op>)
    requires Inv(s, ctx, pool) && AllStaged(ops)
    ensures var t := Run(s, ctx, pool, ops); !t.strayed ==>
      && |t.pmm.stack| + FRAMES_PER_PROCESS * Live(t.procs) == |s.pmm.stack| + FRAMES_PER_PROCESS * Live(s.procs)
      && SameOutside(s.mem, t.mem, pool)
    decreases |ops|
  {
    hide Inv, Step, SameOutside, Staged, Live, Shaped, StraysOn;
    var t := Run(s, ctx, pool, ops);
    InvPlain(s, ctx, pool);
    Conserved(s, ctx, pool);
    if t.strayed {
      return;
    }
    Conserved(t, ctx, pool);
    if ops == [] {
      SameMemory(s.mem, pool);
    } else {
      assert Staged(ops[0]);
      StepKeeps(s, ctx, pool, ops[0]);
      StepOutside(s, ctx, pool, ops[0]);
      RunConserves(Step(s, ops[0]), ctx, pool, ops[1..]);
      WrittenTwice(s.mem, Step(s, ops[0]).mem, t.mem, pool);
    }
  }

  // ----- isolation

  /** In every reachable state: what one process can reach in user mode, no other process can,
      and it is never a page table, a kernel stack or a page of the kernel. */
  lemma Isolated(s: System, ctx: Context, pool: set<nat>, i: nat, j: nat, f: nat)
    requires Inv(s, ctx, pool) && i < |s.procs| && j < |s.procs|
    requires s.procs[i].life != Unused && s.procs[j].life != Unused
    requires UserReaches(s.mem, s.procs[i].space.cr3, f)
    ensures f in pool
    ensures i != j ==> !UserReaches(s.mem, s.procs[j].space.cr3, f)
    ensures f !in TablesOf(s.procs[j].space) && f != s.procs[j].kernelStack
  {
    hide Built, SourceOk, Apart, HeldBy, Owned, UserFrames, Pmm64.Splits, Pmm64.Distinct, UserReaches, TablesOf,
      FramesOf;
    var p, q := s.procs[i], s.procs[j];
    assert SlotOk(s.mem, ctx, p) && SlotOk(s.mem, ctx, q);
    ReachedOwned(s.mem, ctx, pool, p, f);
    UserFramesOwned(p);
    UserFramesOwned(q);
    OwnedInPool(s, ctx, pool, i);
    AlignedCode(p);
    if i == j {
      TablesApart(p);
    } else {
      SlotsApart(s.procs, i, j);
      if UserReaches(s.mem, q.space.cr3, f) {
        ReachedOwned(s.mem, ctx, pool, q, f);
      }
    }
  }

  lemma ReachedOwned(mem: Memory, ctx: Context, pool: set<nat>, p: Process, f: nat)
    requires SlotOk(mem, ctx, p) && p.life != Unused && SourceOk(mem, ctx, pool) && UserReaches(mem, p.space.cr3, f)
    ensures f in UserFrames(p)
  {
    hide Built, SoundSource, UserReaches, FramesOf, Pmm64.Distinct;
    UserReachesExactly(mem, ctx, p.space, p.flags, p.count, f);
  }

  /** Outside the code slot and the second GiB a process sees exactly what the kernel sees. */
  lemma KernelViewShared(s: System, ctx: Context, pool: set<nat>, i: nat, va: nat)
    requires Inv(s, ctx, pool) && i < |s.procs| && s.procs[i].life != Unused
    requires var place := PlaceOf(va, s.procs[i].count); place.Low? || place.High3? || place.High4?
    ensures Walk(s.mem, s.procs[i].space.cr3, va) == Walk(s.mem, ctx.pml4, va)
  {
    hide Built, SoundSource, Walk, Pmm64.Splits, Apart, Pmm64.Distinct, PlaceOf;
    var p := s.procs[i];
    assert SlotOk(s.mem, ctx, p);
    WalkOf(s.mem, ctx, p.space, p.flags, p.count, va);
  }

  // ----- nobody else touches a process

  /** A store by slot `k`, or a run of it. */
  predicate By(op: Op, k: nat) { (op.StoreByte? || op.RunKernel?) && op.slot == k }

  /** Neither an act of slot `k` nor a reap of `pid`. */
  predicate Foreign(op: Op, k: nat, pid: nat) { !By(op, k) && op != ReapPid(pid) }

  /** The same process, up to its life and exit code. */
  predicate SameProcess(p: Process, q: Process) {
    q.life != Unused && q == p.(life := q.life, exitCode := q.exitCode)
  }

  ghost predicate SameFrames(mem: Memory, m: Memory, frames: set<nat>) {
    forall f :: f in frames ==> (f in mem <==> f in m) && (f in mem ==> m[f] == mem[f])
  }

  lemma OthersUnwritten(s: System, ctx: Context, pool: set<nat>, op: Op, k: nat)
    requires Inv(s, ctx, pool) && k < |s.procs| && s.procs[k].life != Unused && !By(op, k) && !Idle(s, op)
    ensures MayWrite(s, op, pool) !! Owned(s.procs[k])
  {
    hide Built, SourceOk, Apart, HeldBy, Owned, UserFrames, Pmm64.Splits, Pmm64.Distinct, Reached;
    if (op.StoreByte? || op.RunKernel?) && op.slot < |s.procs| {
      assert SlotOk(s.mem, ctx, s.procs[op.slot]);
      UserFramesOwned(s.procs[op.slot]);
      SlotsApart(s.procs, op.slot, k);
    } else {
      SlotHeld(s.procs, k);
    }
  }

  lemma StepFrames(s: System, ctx: Context, pool: set<nat>, op: Op, k: nat)
    requires Inv(s, ctx, pool) && Staged(op) && k < |s.procs| && s.procs[k].life != Unused
    requires !By(op, k)
    ensures Shaped(s) && (!Step(s, op).strayed ==> SameFrames(s.mem, Step(s, op).mem, Owned(s.procs[k])))
  {
    hide Inv, CreateKernel, CreateUser, MarkExited, Reap, Shaped, HeldBy, UserFrames, Owned, Walk, StraysOn;
    StepKeeps(s, ctx, pool, op);
    if !Idle(s, op) {
      OthersUnwritten(s, ctx, pool, op, k);
    }
  }

  lemma StepSlot(s: System, ctx: Context, pool: set<nat>, op: Op, k: nat)
    requires Inv(s, ctx, pool) && Staged(op) && k < |s.procs| && s.procs[k].life != Unused
    requires op != ReapPid(s.procs[k].pid)
    ensures Shaped(s)
    ensures var t := Step(s, op); !t.strayed ==> |t.procs| == |s.procs| && SameProcess(s.procs[k], t.procs[k])
  {
    hide Inv, CreateKernel, CreateUser, Store, Shaped, SameOutside, HeldBy, Strays;
    StepKeeps(s, ctx, pool, op);
    match op {
      case NewKernel(entry) => CreateKernelExact(s, ctx, pool, entry);
      case NewUser(image) => CreateUserExact(s, ctx, pool, image);
      case StoreByte(i, va, value) => StoreKeeps(s, ctx, pool, i, va, value);
      case _ =>
    }
  }

  /** Through every run in which slot `k` neither acts nor is reaped, and no store strays, its
      process stays and every byte of every page it owns stays as it was. */
  lemma {:induction false} RunUndisturbed(s: System, ctx: Context, pool: set<nat>, ops: seq<Op>, k: nat)
    requires Inv(s, ctx, pool) && AllStaged(ops) && k < |s.procs| && s.procs[k].life != Unused
    requires forall n :: 0 <= n < |ops| ==> Foreign(ops[n], k, s.procs[k].pid)
    ensures var t := Run(s, ctx, pool, ops); !t.strayed ==>
      && |t.procs| == |s.procs| && SameProcess(s.procs[k], t.procs[k])
      && SameFrames(s.mem, t.mem, Owned(s.procs[k]))
    decreases |ops|
  {
    hide Inv, Step, Staged, Shaped, SameOutside, MayWrite, Owned, HeldBy, StraysOn;
    InvPlain(s, ctx, pool);
    if ops != [] {
      assert Staged(ops[0]) && Foreign(ops[0], k, s.procs[k].pid);
      StepKeeps(s, ctx, pool, ops[0]);
      if Step(s, ops[0]).strayed {
        return;
      }
      StepFrames(s, ctx, pool, ops[0], k);
      StepSlot(s, ctx, pool, ops[0], k);
      var u := Step(s, ops[0]);
      assert Owned(u.procs[k]) == Owned(s.procs[k]) by { OwnedSame(s.procs[k], u.procs[k]); }
      forall n | 0 <= n < |ops[1..]| ensures Foreign(ops[1..][n], k, u.procs[k].pid) {
        assert ops[1..][n] == ops[n + 1];
      }
      RunUndisturbed(u, ctx, pool, ops[1..], k);
    }
  }

  lemma OwnedSame(p: Process, q: Process)
    requires SameProcess(p, q)
    ensures Owned(p) == Owned(q)
  {
  }

  /** Read through its own tables, then: every address the process may use in user mode reads
      the same byte with the same rights. */
  lemma SameUserView(s: System, t: System, ctx: Context, pool: set<nat>, k: nat, va: nat)
    requires Inv(s, ctx, pool) && Inv(t, ctx, pool) && k < |s.procs| && s.procs[k].life != Unused
    requires SameProcess(s.procs[k], t.procs[k]) && SameFrames(s.mem, t.mem, Owned(s.procs[k]))
    requires var place := PlaceOf(va, s.procs[k].count); place.CodePage? || place.Stack?
    ensures Walk(t.mem, t.procs[k].space.cr3, va) == Walk(s.mem, s.procs[k].space.cr3, va)
    ensures ByteAt(t.mem, t.procs[k].space.cr3, va) == ByteAt(s.mem, s.procs[k].space.cr3, va)
  {
    hide Built, SoundSource, Walk, Pmm64.Splits, Apart, Pmm64.Distinct, PlaceOf, FrameOf, Owned, FramesOf, HeldBy;
    var p, q := s.procs[k], t.procs[k];
    assert SlotOk(s.mem, ctx, p) && SlotOk(t.mem, ctx, q);
    WalkOf(s.mem, ctx, p.space, p.flags, p.count, va);
    WalkOf(t.mem, ctx, p.space, p.flags, p.count, va);
    UserFramesOwned(p);
    FramesListed(p.space);
    match PlaceOf(va, p.count) {
      case CodePage(i) => PageOfSum(p.space.code[i], va);
      case Stack => PageOfSum(p.space.stack, va);
      case _ =>
    }
  }

  /** A kernel process's slot is never given back: no step empties it. */
  lemma KernelSlotStays(s: System, ctx: Context, pool: set<nat>, op: Op, k: nat)
    requires Inv(s, ctx, pool) && Staged(op) && k < |s.procs| && s.procs[k].life != Unused && s.procs[k].mode == Kernel
    ensures Shaped(s)
    ensures var t := Step(s, op); !t.strayed ==> |t.procs| == |s.procs| && SameProcess(s.procs[k], t.procs[k])
  {
    hide Inv, CreateKernel, CreateUser, Store, Shaped, SameOutside, HeldBy, FindPid, StraysOn;
    StepKeeps(s, ctx, pool, op);
    if op != ReapPid(s.procs[k].pid) {
      StepSlot(s, ctx, pool, op, k);
    }
  }

  /** Over every run, then, kernel processes only accumulate. */
  lemma {:induction false} KernelSlotsAccumulate(s: System, ctx: Context, pool: set<nat>, ops: seq<Op>, k: nat)
    requires Inv(s, ctx, pool) && AllStaged(ops) && k < |s.procs| && s.procs[k].life != Unused
      && s.procs[k].mode == Kernel
    ensures var t := Run(s, ctx, pool, ops);
      !t.strayed ==> |t.procs| == |s.procs| && SameProcess(s.procs[k], t.procs[k])
    decreases |ops|
  {
    hide Inv, Step, Staged, Shaped, SameOutside, MayWrite, StraysOn;
    InvPlain(s, ctx, pool);
    if ops != [] {
      assert Staged(ops[0]);
      StepKeeps(s, ctx, pool, ops[0]);
      if Step(s, ops[0]).strayed {
        return;
      }
      KernelSlotStays(s, ctx, pool, ops[0], k);
      KernelSlotsAccumulate(Step(s, ops[0]), ctx, pool, ops[1..], k);
    }
  }

  /** Reaping what was just created restores the table and the set of free pages. */
  lemma ReapUndoesCreate(s: System, ctx: Context, pool: set<nat>, m: Image)
    requires Inv(s, ctx, pool) && |m.staged| == IMAGE_MAX && AcceptableImage(m)
    requires FindUnused(s.procs).Some? && |s.pmm.stack| >= FRAMES_PER_PROCESS && !Strays(s.pmm)
    ensures Shaped(s)
    ensures var i := FindUnused(s.procs).value;
      && i < |CreateUser(s, m).0.procs|
      && var u := ReapSlot(CreateUser(s, m).0, i);
      && !u.strayed && u.procs == s.procs && |u.pmm.stack| == |s.pmm.stack|
      && Finite.Elements(u.pmm.stack) == Finite.Elements(s.pmm.stack)
  {
    hide Inv, CreateUser, Shaped, HeldBy, FindUnused, WritesFreeOnly, Loaded, ReapSlot, Strays;
    CreateUserExact(s, ctx, pool, m);
    var i, t := FindUnused(s.procs).value, CreateUser(s, m).0;
    ReapSlotExact(t, ctx, pool, i);
    var u := ReapSlot(t, i);
    assert u.procs == s.procs;
    FreeIsRest(s, ctx, pool);
    FreeIsRest(u, ctx, pool);
  }

  lemma FreeIsRest(s: System, ctx: Context, pool: set<nat>)
    requires Inv(s, ctx, pool)
    ensures Finite.Elements(s.pmm.stack) == pool - HeldBy(s.procs)
  {
    hide HeldBy, SourceOk, SlotOk, Apart, Finite.NoDup, Finite.Elements;
  }

  // ----- start

  /** An empty table over sound kernel tables outside the pool satisfies the invariant. */
  lemma InitialInv(s: System, ctx: Context, pool: set<nat>)
    requires s.ready && !s.strayed && s.ctx == Some(ctx) && s.procs == seq(MAX_PROCESSES, _ => EMPTY)
    requires Pmm64.Splits(s.pmm, {}, pool) && SourceOk(s.mem, ctx, pool)
    ensures Inv(s, ctx, pool)
  {
    hide Pmm64.Splits, SourceOk, Owned;
    EmptyOwnsNothing();
    assert HeldBy(s.procs) == {};
  }
}
