/** Creating and reaping processes: when they succeed, what they write, what they keep. */
module ProcessCreate64 {
  import opened MachineWords
  import opened UserLayout64
  import opened Wrappers
  import opened Paging64
  import opened AddressSpace64
  import opened SpaceInstall64
  import opened Processes64
  import opened ProcessFrames64
  import Pmm64

  // ----- what a change of the table keeps

  lemma SameFree(p: Pmm64.State, q: Pmm64.State, held: set<nat>, pool: set<nat>)
    requires Pmm64.Splits(p, held, pool) && Pmm64.Splits(q, held, pool)
    ensures |q.stack| == |p.stack|
  {
    Pmm64.FreeCount(p, held, pool);
    Pmm64.FreeCount(q, held, pool);
  }

  /** Only free pages written, the same pages held: the invariant stays. */
  lemma SameTable(s: System, t: System, ctx: Context, pool: set<nat>)
    requires Inv(s, ctx, pool) && t == s.(mem := t.mem, pmm := t.pmm, nextPid := t.nextPid)
    requires Pmm64.Splits(t.pmm, HeldBy(s.procs), pool) && WritesFreeOnly(s, t, pool)
    ensures Inv(t, ctx, pool) && |t.pmm.stack| == |s.pmm.stack|
  {
    hide Pmm64.Splits, SourceOk, SlotOk, Apart, HeldBy, SameOutside;
    SlotsKept(s, ctx, pool, t.mem, pool - HeldBy(s.procs));
    SameFree(s.pmm, t.pmm, HeldBy(s.procs), pool);
  }

  /** A sound process in an empty slot, holding pages that were free. */
  lemma Filled(s: System, t: System, ctx: Context, pool: set<nat>, i: nat, p: Process)
    requires Inv(s, ctx, pool) && i < |s.procs| && s.procs[i] == EMPTY
    requires t == s.(mem := t.mem, pmm := t.pmm, nextPid := t.nextPid, procs := s.procs[i := p])
    requires SlotOk(t.mem, ctx, p) && WritesFreeOnly(s, t, pool)
    requires Pmm64.Took(t.pmm, HeldBy(s.procs), pool, Frames(p))
    ensures Inv(t, ctx, pool)
  {
    hide Pmm64.Splits, SourceOk, SlotOk, Apart, HeldBy, SameOutside, Frames, Pmm64.Got, Pmm64.Distinct;
    SlotsKept(s, ctx, pool, t.mem, pool - HeldBy(s.procs));
    HeldReplace(s.procs, i, p);
    EmptyOwnsNothing();
    assert HeldBy(s.procs) - {} + Owned(p) == HeldBy(s.procs) + Owned(p);
  }

  lemma AcquireFails(s: System, ctx: Context, pool: set<nat>, i: nat)
    requires Inv(s, ctx, pool) && i < |s.procs| && s.procs[i] == EMPTY && |s.pmm.stack| < 12 && !Strays(s.pmm)
    ensures Shaped(s)
    ensures var r := Acquire(s, i);
      && !r.1 && r.0 == s.(mem := r.0.mem, pmm := r.0.pmm) && Inv(r.0, ctx, pool)
      && WritesFreeOnly(s, r.0, pool) && |r.0.pmm.stack| == |s.pmm.stack|
  {
    hide Inv, AllocateSpace, WritesFreeOnly, Shaped, HeldBy, Pmm64.Splits;
    if |s.pmm.stack| == 11 {
      StackRunsOut(s, ctx, pool, i);
    } else {
      SpaceRunsOut(s, ctx, pool, i);
      NothingWritten(s, Acquire(s, i).0, pool);
    }
    SameTable(s, Acquire(s, i).0, ctx, pool);
  }

  lemma NothingWritten(s: System, t: System, pool: set<nat>)
    requires t.mem == s.mem
    ensures WritesFreeOnly(s, t, pool)
  {
  }

  /** The first unused slot is blank. */
  lemma UnusedEmpty(s: System, ctx: Context, pool: set<nat>)
    requires Inv(s, ctx, pool) && FindUnused(s.procs).Some?
    ensures s.procs[FindUnused(s.procs).value] == EMPTY
  {
    assert SlotOk(s.mem, ctx, s.procs[FindUnused(s.procs).value]);
  }

  // ----- creation

  /** Slot `i` now holds process `p`; the twelve topmost pages moved from the allocator to it. */
  ghost predicate Added(s: System, t: System, i: nat, p: Process) {
    && i < |s.procs| && s.procs[i] == EMPTY && t.procs == s.procs[i := p]
    && p.life == Ready && p.pid == s.nextPid && t.nextPid == (s.nextPid + 1) % U32
    && Popped(s, t)
  }

  ghost predicate SameProcesses(s: System, t: System) {
    t == s.(mem := t.mem, pmm := t.pmm) && |t.pmm.stack| == |s.pmm.stack|
  }

  lemma AcquiredSlot(s: System, t: System, ctx: Context, pool: set<nat>, i: nat, sp: Space, k: nat)
    requires Acquired(s, t, ctx, pool, i, sp, k)
    ensures |t.procs| == |s.procs| && i < |s.procs|
    ensures t.procs[i] == WithSpace(sp).(kernelStack := k)
    ensures Aligned(sp, [P_U, 0, 0, 0], 1) && |FramesOf(sp) + [k]| == 12 && Reached(FramesOf(sp) + [k])
    ensures Pmm64.Distinct(FramesOf(sp) + [k])
  {
    hide Built, SourceOk, Pmm64.Splits, WritesFreeOnly, Windowed;
  }

  /** The twelve pages came off the top of the stack. */
  ghost predicate Popped(s: System, t: System) {
    |s.pmm.stack| >= FRAMES_PER_PROCESS && t.pmm == s.pmm.(stack := s.pmm.stack[..|s.pmm.stack| - FRAMES_PER_PROCESS])
  }

  /** The state after a kernel process was put into slot `i`. */
  lemma KernelAdded(s: System, t: System, u: System, ctx: Context, pool: set<nat>, i: nat, sp: Space, k: nat,
      p: Process)
    requires Inv(s, ctx, pool) && i < |s.procs| && s.procs[i] == EMPTY && Acquired(s, t, ctx, pool, i, sp, k)
    requires p == WithSpace(sp).(kernelStack := k, life := Ready, mode := Kernel, pid := s.nextPid, entry := p.entry)
    requires u == t.(procs := t.procs[i := p], nextPid := (s.nextPid + 1) % U32) && Popped(s, t)
    ensures Inv(u, ctx, pool) && Added(s, u, i, p) && WritesFreeOnly(s, u, pool)
  {
    hide Built, SourceOk, Pmm64.Splits, SameOutside, FramesOf, Separate, FromPool, HeldBy, Aligned, Apart,
      Pmm64.Distinct, Pmm64.Took, Reached;
    AcquiredSlot(s, t, ctx, pool, i, sp, k);
    assert s.procs[i := WithSpace(sp).(kernelStack := k)][i := p] == s.procs[i := p];
    assert Frames(p) == FramesOf(sp) + [k];
    assert SlotOk(u.mem, ctx, p);
    Filled(s, u, ctx, pool, i, p);
  }

  /** Creating a kernel process takes the twelve topmost pages or leaves table and free count
      alone; it succeeds exactly when there is an entry, a free slot and twelve free pages. It
      strays exactly when it gets to write a page outside the kernel's window. */
  lemma CreateKernelExact(s: System, ctx: Context, pool: set<nat>, entry: nat)
    requires Inv(s, ctx, pool)
    ensures Shaped(s)
    ensures CreateKernel(s, entry).0.strayed <==> entry != 0 && FindUnused(s.procs).Some? && Strays(s.pmm)
    ensures CreateKernel(s, entry).0.strayed ==> CreateKernel(s, entry).1 == 0
    ensures var r := CreateKernel(s, entry); !r.0.strayed ==>
      && Inv(r.0, ctx, pool) && WritesFreeOnly(s, r.0, pool)
      && if entry != 0 && FindUnused(s.procs).Some? && |s.pmm.stack| >= FRAMES_PER_PROCESS then
           var i := FindUnused(s.procs).value;
           && r.1 == s.nextPid && |r.0.procs| == |s.procs| && Added(s, r.0, i, r.0.procs[i])
           && r.0.procs[i].mode == Kernel && r.0.procs[i].entry == entry
           && r.0.procs[i].userEntry == 0 && r.0.procs[i].exitCode == 0
         else
           r.1 == 0 && SameProcesses(s, r.0) && (entry == 0 || FindUnused(s.procs).None? ==> r.0 == s)
  {
    hide Inv, Acquire, Acquired, Shaped, WritesFreeOnly, FindUnused, TopReached, Windowed;
    InvShaped(s, ctx, pool);
    assert s.ready && !s.strayed && s.ctx == Some(ctx) && |s.procs| == MAX_PROCESSES by { InvPlain(s, ctx, pool); }
    if entry != 0 && FindUnused(s.procs).Some? {
      var i := FindUnused(s.procs).value;
      UnusedEmpty(s, ctx, pool);
      if Strays(s.pmm) {
        AcquireStrays(s, ctx, pool, i);
      } else if |s.pmm.stack| >= FRAMES_PER_PROCESS {
        var sp, k := AcquireSucceeds(s, ctx, pool, i);
        var t := Acquire(s, i).0;
        AcquiredSlot(s, t, ctx, pool, i, sp, k);
        var p := t.procs[i].(life := Ready, mode := Kernel, pid := s.nextPid, entry := entry, userEntry := 0,
          exitCode := 0);
        assert CreateKernel(s, entry) == (t.(procs := t.procs[i := p], nextPid := (s.nextPid + 1) % U32), s.nextPid);
        KernelAdded(s, t, CreateKernel(s, entry).0, ctx, pool, i, sp, k, p);
        InvPlain(CreateKernel(s, entry).0, ctx, pool);
      } else {
        AcquireFails(s, ctx, pool, i);
        InvPlain(Acquire(s, i).0, ctx, pool);
      }
    } else {
      NothingWritten(s, s, pool);
    }
  }

  lemma InvPlain(s: System, ctx: Context, pool: set<nat>)
    requires Inv(s, ctx, pool)
    ensures s.ready && !s.strayed && s.ctx == Some(ctx) && |s.procs| == MAX_PROCESSES
  {
  }

  // ----- user processes

  /** The image is in the process's pages: each code page holds its part of the staged bytes
      and zeros after them, the stack is zero, and writable pages are the marked ones. */
  ghost predicate Loaded(mem: Memory, p: Process, m: Image)
    requires |m.staged| == IMAGE_MAX && m.bytes <= IMAGE_MAX
  {
    && p.mode == UserMode && p.userEntry == m.entry && p.flags == CodeFlagsOf(m) && p.count == m.count
    && |p.space.code| == MAX_PAGES
    && (forall k :: 0 <= k < MAX_PAGES ==> p.space.code[k] in mem && mem[p.space.code[k]] == Data(PageImage(m, k)))
    && p.space.stack in mem && mem[p.space.stack] == Data(ZeroPage())
  }

  lemma ImageFlagsOk(m: Image)
    requires AcceptableImage(m)
    ensures FlagsOk(CodeFlagsOf(m), m.count)
  {
  }

  lemma AcquiredParts(s: System, t: System, ctx: Context, pool: set<nat>, i: nat, sp: Space, k: nat)
    requires Acquired(s, t, ctx, pool, i, sp, k)
    ensures SourceOk(t.mem, ctx, pool) && Separate(ctx, sp) && FromPool(sp, pool) && WritesFreeOnly(s, t, pool)
    ensures Pmm64.Got(FramesOf(sp)) <= pool - HeldBy(s.procs)
    ensures Pmm64.Took(t.pmm, HeldBy(s.procs), pool, FramesOf(sp) + [k]) && 0 !in FramesOf(sp) + [k]
    ensures t == s.(mem := t.mem, pmm := t.pmm, procs := s.procs[i := WithSpace(sp).(kernelStack := k)])
  {
    hide Built, SourceOk, Separate, SameOutside, HeldBy, FramesOf;
    Pmm64.GotSnoc(FramesOf(sp), k);
  }

  lemma WrittenTwice(mem: Memory, m: Memory, n: Memory, written: set<nat>)
    requires SameOutside(mem, m, written) && SameOutside(m, n, written)
    ensures SameOutside(mem, n, written)
  {
  }

  /** The memory a user image is installed into. */
  lemma ImageInstalled(s: System, t: System, ctx: Context, pool: set<nat>, i: nat, sp: Space, k: nat, m: Image,
      mem: Memory)
    requires Acquired(s, t, ctx, pool, i, sp, k) && AcceptableImage(m) && |m.staged| == IMAGE_MAX
      && |sp.code| == MAX_PAGES
    requires mem == Installed(t.mem, ctx, sp, CodeFlagsOf(m), m.count, PagesOf(m))
    ensures Built(mem, ctx, sp, CodeFlagsOf(m), m.count) && Aligned(sp, CodeFlagsOf(m), m.count)
    ensures KernelMappingsValid(mem, ctx, sp) && UserTablesValid(mem, ctx, sp, CodeFlagsOf(m), m.count)
    ensures SameOutside(s.mem, mem, pool - HeldBy(s.procs))
    ensures forall j :: 0 <= j < MAX_PAGES ==> sp.code[j] in mem && mem[sp.code[j]] == Data(PageImage(m, j))
    ensures sp.stack in mem && mem[sp.stack] == Data(ZeroPage())
  {
    hide Acquired, Built, SourceOk, Separate, FromPool, SameOutside, HeldBy, FramesOf, Installed, KernelMappingsValid,
      UserTablesValid, FlagsOk, CodeFlagsOf, Aligned, PageImage, Pmm64.Took, Pmm64.Got;
    AcquiredParts(s, t, ctx, pool, i, sp, k);
    ImageFlagsOk(m);
    InstallSpace(t.mem, ctx, pool, sp, CodeFlagsOf(m), m.count, PagesOf(m));
    WrittenWider(t.mem, mem, Pmm64.Got(FramesOf(sp)), pool - HeldBy(s.procs));
    WrittenTwice(s.mem, t.mem, mem, pool - HeldBy(s.procs));
    InstalledFrames(t.mem, ctx, sp, CodeFlagsOf(m), m.count, PagesOf(m));
    FramesListed(sp);
  }

  /** The state after a user process was put into slot `i`. */
  lemma UserAdded(s: System, t: System, u: System, ctx: Context, pool: set<nat>, i: nat, sp: Space, k: nat, m: Image,
      p: Process)
    requires Inv(s, ctx, pool) && i < |s.procs| && s.procs[i] == EMPTY && Acquired(s, t, ctx, pool, i, sp, k)
    requires AcceptableImage(m) && |m.staged| == IMAGE_MAX && |sp.code| == MAX_PAGES
    requires u.mem == Installed(t.mem, ctx, sp, CodeFlagsOf(m), m.count, PagesOf(m))
    requires p == WithSpace(sp).(kernelStack := k, life := Ready, mode := UserMode, pid := s.nextPid,
      userEntry := m.entry,
      flags := CodeFlagsOf(m), count := m.count)
    requires u == t.(mem := u.mem, procs := t.procs[i := p], nextPid := (s.nextPid + 1) % U32) && Popped(s, t)
    ensures Inv(u, ctx, pool) && Added(s, u, i, p) && WritesFreeOnly(s, u, pool) && Loaded(u.mem, p, m)
  {
    hide Acquired, Built, SourceOk, Pmm64.Splits, SameOutside, FramesOf, Separate, FromPool, HeldBy, Aligned, Apart,
      Pmm64.Distinct, Pmm64.Took, Installed, KernelMappingsValid, UserTablesValid, CodeFlagsOf, PageImage, Reached;
    AcquiredSlot(s, t, ctx, pool, i, sp, k);
    AcquiredParts(s, t, ctx, pool, i, sp, k);
    ImageInstalled(s, t, ctx, pool, i, sp, k, m, u.mem);
    assert s.procs[i := WithSpace(sp).(kernelStack := k)][i := p] == s.procs[i := p];
    assert Frames(p) == FramesOf(sp) + [k];
    assert SlotOk(u.mem, ctx, p);
    Filled(s, u, ctx, pool, i, p);
  }

  /** Creating a user process takes the twelve topmost pages and loads the image, or leaves table
      and free count alone; it fails only for a bad image, a full table or too few pages, and it
      strays exactly when it gets to write a page outside the kernel's window. */
  lemma CreateUserExact(s: System, ctx: Context, pool: set<nat>, m: Image)
    requires Inv(s, ctx, pool) && |m.staged| == IMAGE_MAX
    ensures Shaped(s)
    ensures CreateUser(s, m).0.strayed <==> AcceptableImage(m) && FindUnused(s.procs).Some? && Strays(s.pmm)
    ensures CreateUser(s, m).0.strayed ==> CreateUser(s, m).1 == 0
    ensures var r := CreateUser(s, m); !r.0.strayed ==>
      && Inv(r.0, ctx, pool) && WritesFreeOnly(s, r.0, pool)
      && if AcceptableImage(m) && FindUnused(s.procs).Some? && |s.pmm.stack| >= FRAMES_PER_PROCESS then
           var i := FindUnused(s.procs).value;
           && r.1 == s.nextPid && |r.0.procs| == |s.procs| && Added(s, r.0, i, r.0.procs[i])
           && Loaded(r.0.mem, r.0.procs[i], m) && r.0.procs[i].entry == 0 && r.0.procs[i].exitCode == 0
         else
           r.1 == 0 && SameProcesses(s, r.0) && (!AcceptableImage(m) || FindUnused(s.procs).None? ==> r.0 == s)
  {
    hide Inv, Acquire, Acquired, Shaped, WritesFreeOnly, FindUnused, Loaded, AcceptableImage, CodeFlagsOf, PageImage,
      Installed, KernelMappingsValid, UserTablesValid, Aligned, Built, FramesOf, Pmm64.Distinct, TopReached, Windowed;
    InvShaped(s, ctx, pool);
    InvPlain(s, ctx, pool);
    if AcceptableImage(m) && FindUnused(s.procs).Some? {
      var i := FindUnused(s.procs).value;
      UnusedEmpty(s, ctx, pool);
      if Strays(s.pmm) {
        AcquireStrays(s, ctx, pool, i);
      } else if |s.pmm.stack| >= FRAMES_PER_PROCESS {
        var sp, k := AcquireSucceeds(s, ctx, pool, i);
        CreateUserSucceeds(s, ctx, pool, m, i, sp, k);
        InvPlain(CreateUser(s, m).0, ctx, pool);
      } else {
        AcquireFails(s, ctx, pool, i);
        InvPlain(Acquire(s, i).0, ctx, pool);
      }
    } else {
      NothingWritten(s, s, pool);
    }
  }

  lemma CreateUserSucceeds(s: System, ctx: Context, pool: set<nat>, m: Image, i: nat, sp: Space, k: nat)
    requires Inv(s, ctx, pool) && Shaped(s) && |m.staged| == IMAGE_MAX && AcceptableImage(m)
    requires FindUnused(s.procs) == Some(i) && s.procs[i] == EMPTY
    requires Acquire(s, i).1 && Acquired(s, Acquire(s, i).0, ctx, pool, i, sp, k) && Popped(s, Acquire(s, i).0)
    ensures var r := CreateUser(s, m);
      && Inv(r.0, ctx, pool) && WritesFreeOnly(s, r.0, pool) && r.1 == s.nextPid
      && |r.0.procs| == |s.procs| && Added(s, r.0, i, r.0.procs[i]) && Loaded(r.0.mem, r.0.procs[i], m)
      && r.0.procs[i].entry == 0 && r.0.procs[i].exitCode == 0
  {
    hide Inv, Acquire, Acquired, Shaped, WritesFreeOnly, FindUnused, Loaded, CodeFlagsOf, PageImage, Installed,
      KernelMappingsValid, UserTablesValid, Aligned, Built, FramesOf, Pmm64.Distinct;
    InvPlain(s, ctx, pool);
    var t := Acquire(s, i).0;
    AcquiredSlot(s, t, ctx, pool, i, sp, k);
    assert |sp.code| == MAX_PAGES by { AcquiredCode(s, t, ctx, pool, i, sp, k); }
    assert t.nextPid == s.nextPid && t.ctx == s.ctx by { AcquiredParts(s, t, ctx, pool, i, sp, k); }
    var mem := Installed(t.mem, ctx, sp, CodeFlagsOf(m), m.count, PagesOf(m));
    ImageInstalled(s, t, ctx, pool, i, sp, k, m, mem);
    var p := WithSpace(sp).(kernelStack := k, life := Ready, mode := UserMode, pid := s.nextPid, userEntry := m.entry,
      flags := CodeFlagsOf(m), count := m.count);
    var u := t.(mem := mem, procs := t.procs[i := p], nextPid := (s.nextPid + 1) % U32);
    assert CreateUser(s, m) == (u, s.nextPid);
    UserAdded(s, t, u, ctx, pool, i, sp, k, m, p);
  }

  lemma AcquiredCode(s: System, t: System, ctx: Context, pool: set<nat>, i: nat, sp: Space, k: nat)
    requires Acquired(s, t, ctx, pool, i, sp, k)
    ensures |sp.code| == MAX_PAGES
  {
  }

  // ----- reaping

  /** A live slot's pages, given back one by one, all go back to the allocator. */
  lemma PagesReturned(q: Pmm64.State, held: set<nat>, pool: set<nat>, frames: seq<nat>, k: nat)
    requires Pmm64.Splits(q, held, pool) && Pmm64.Got(frames + [k]) <= held
    requires Pmm64.Distinct(frames + [k]) && 0 !in frames + [k]
    ensures Pmm64.Splits(Pmm64.Free(Pmm64.FreeAll(q, frames), k), held - Pmm64.Got(frames + [k]), pool)
  {
    hide Pmm64.Splits, Pmm64.FreeAll, Pmm64.Free, Pmm64.Got, Pmm64.Distinct;
    Pmm64.GotSnoc(frames, k);
    DistinctSnoc(frames, k);
    Pmm64.FreeAllSplits(q, held, pool, frames);
    Pmm64.FreeSplits(Pmm64.FreeAll(q, frames), held - Pmm64.Got(frames), pool, k);
    assert held - Pmm64.Got(frames) - {k} == held - Pmm64.Got(frames + [k]);
  }

  lemma DistinctSnoc(frames: seq<nat>, k: nat)
    requires Pmm64.Distinct(frames + [k]) && 0 !in frames + [k]
    ensures Pmm64.Distinct(frames) && k != 0 && k !in Pmm64.Got(frames)
  {
    var all := frames + [k];
    assert all[|frames|] == k;
    assert forall j :: 0 <= j < |frames| ==> all[j] == frames[j];
  }

  /** Reaping a live slot empties it, returns its twelve pages and touches nothing else. */
  lemma ReapSlotExact(s: System, ctx: Context, pool: set<nat>, i: nat)
    requires Inv(s, ctx, pool) && i < |s.procs| && s.procs[i].life != Unused
    ensures var t := ReapSlot(s, i);
      && Inv(t, ctx, pool) && t == s.(pmm := t.pmm, procs := s.procs[i := EMPTY])
      && |t.pmm.stack| == |s.pmm.stack| + FRAMES_PER_PROCESS && s.pmm.stack <= t.pmm.stack
      && forall j :: |s.pmm.stack| <= j < |t.pmm.stack| ==> Windowed(t.pmm.stack[j])
  {
    hide Built, SourceOk, Aligned, Pmm64.Splits, Pmm64.Distinct, Pmm64.Got, FramesOf, HeldBy, Apart, Pmm64.FreeAll,
      Pmm64.Free, Windowed, Reached;
    var p, t := s.procs[i], ReapSlot(s, i);
    var held := HeldBy(s.procs);
    assert SlotOk(s.mem, ctx, p);
    SlotHeld(s.procs, i);
    PagesReturned(s.pmm, held, pool, FramesOf(p.space), p.kernelStack);
    assert t.procs == s.procs[i := EMPTY];
    assert t.pmm == Pmm64.Free(Pmm64.FreeAll(s.pmm, FramesOf(p.space)), p.kernelStack);
    HeldReplace(s.procs, i, EMPTY);
    EmptyOwnsNothing();
    assert held - Owned(p) + {} == held - Owned(p);
    forall j | 0 <= j < |t.procs| ensures SlotOk(t.mem, ctx, t.procs[j]) {
      if j != i {
        assert SlotOk(s.mem, ctx, s.procs[j]);
      }
    }
    OwnedTwelve(s.mem, ctx, p);
    PagesPushed(s.pmm, FramesOf(p.space), p.kernelStack);
    Pmm64.FreeCount(s.pmm, held, pool);
    Pmm64.FreeCount(t.pmm, held - Owned(p), pool);
    assert |held| == |held - Owned(p)| + |Owned(p)| by { assert held == (held - Owned(p)) + Owned(p); }
  }

  /** The pages given back lie on top of the stack. */
  lemma PagesPushed(q: Pmm64.State, frames: seq<nat>, k: nat)
    requires Reached(frames + [k])
    ensures var r := Pmm64.Free(Pmm64.FreeAll(q, frames), k);
      && q.stack <= r.stack
      && forall j :: |q.stack| <= j < |r.stack| ==> Windowed(r.stack[j])
  {
    hide Windowed, Pmm64.FreeAll;
    Pmm64.FreeAllPushes(q, frames);
    assert forall f :: f in frames ==> f in frames + [k];
    assert k in frames + [k];
  }

  lemma OwnedTwelve(mem: Memory, ctx: Context, p: Process)
    requires SlotOk(mem, ctx, p) && p.life != Unused
    ensures |Owned(p)| == FRAMES_PER_PROCESS
  {
    hide Built, Pmm64.Distinct, Pmm64.Got;
    Pmm64.DistinctCount(Frames(p));
  }
}
