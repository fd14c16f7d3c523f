/** The invariant of the process table over physical memory and the page allocator, and
    what acquiring the frames of a process does to it. */
module ProcessFrames64 {
  import opened MachineWords
  import opened UserLayout64
  import opened Wrappers
  import opened Paging64
  import opened AddressSpace64
  import opened SpaceInstall64
  import opened Processes64
  import Pmm64

  function Frames(p: Process): seq<nat> { FramesOf(p.space) + [p.kernelStack] }

  ghost function Owned(p: Process): set<nat> { Pmm64.Got(Frames(p)) }

  ghost function HeldBy(procs: seq<Process>): set<nat> {
    set i, f | 0 <= i < |procs| && f in Owned(procs[i]) :: f
  }

  /** A free slot is blank; any other slot owns twelve different frames the kernel can reach,
      and its tables are built over the kernel's. */
  ghost predicate SlotOk(mem: Memory, ctx: Context, p: Process) {
    if p.life == Unused then p == EMPTY
    else
      && 0 !in Frames(p) && Pmm64.Distinct(Frames(p)) && Reached(Frames(p))
      && Aligned(p.space, p.flags, p.count)
      && Built(mem, ctx, p.space, p.flags, p.count)
      && p.kernelReady && p.tablesReady
  }

  /** The kernel's tables are sound, within its reach, and lie outside the pages the allocator
      manages. */
  ghost predicate SourceOk(mem: Memory, ctx: Context, pool: set<nat>) {
    && SoundSource(mem, ctx) && Reached(SourceTables(ctx))
    && ctx.pml4 !in pool && ctx.pdpt !in pool && ctx.pd !in pool
    && FrameOf(WordAt(mem, ctx.pd, 2)) !in pool
  }

  ghost predicate Apart(procs: seq<Process>) {
    forall i, j :: 0 <= i < j < |procs| ==> Owned(procs[i]) !! Owned(procs[j])
  }

  ghost predicate Inv(s: System, ctx: Context, pool: set<nat>) {
    && s.ready && !s.strayed && s.ctx == Some(ctx) && |s.procs| == MAX_PROCESSES
    && Pmm64.Splits(s.pmm, HeldBy(s.procs), pool)
    && SourceOk(s.mem, ctx, pool)
    && (forall i :: 0 <= i < |s.procs| ==> SlotOk(s.mem, ctx, s.procs[i]))
    && Apart(s.procs)
  }

  lemma EmptyOwnsNothing()
    ensures Owned(EMPTY) == {} && |EMPTY.space.code| == MAX_PAGES
  {
  }

  lemma InvShaped(s: System, ctx: Context, pool: set<nat>)
    requires Inv(s, ctx, pool)
    ensures Shaped(s)
  {
    hide Pmm64.Splits, SourceOk, Built, Apart;
    EmptyOwnsNothing();
    forall i | 0 <= i < |s.procs| ensures |s.procs[i].space.code| == MAX_PAGES {
      assert SlotOk(s.mem, ctx, s.procs[i]);
    }
  }

  // ----- memory written outside a space leaves the space alone

  ghost predicate SameOutside(mem: Memory, m: Memory, written: set<nat>) {
    forall f :: f !in written ==> (f in mem <==> f in m) && (f in mem ==> m[f] == mem[f])
  }

  lemma TableKept(mem: Memory, m: Memory, written: set<nat>, t: nat)
    requires SameOutside(mem, m, written) && t !in written && IsTable(mem, t)
    ensures IsTable(m, t) && forall i :: 0 <= i < WORDS ==> WordAt(m, t, i) == WordAt(mem, t, i)
  {
  }

  function TablesOf(sp: Space): seq<nat> {
    [sp.cr3, sp.pdpt, sp.codePd, sp.stackPd, sp.codePt, sp.stackPt]
  }

  lemma TablesListed(sp: Space)
    ensures forall f :: f in TablesOf(sp) ==> f in FramesOf(sp)
  {
    FramesListed(sp);
  }

  lemma BuiltKept(mem: Memory, m: Memory, written: set<nat>, ctx: Context, sp: Space, flags: seq<nat>, count: nat)
    requires Built(mem, ctx, sp, flags, count) && SoundSource(mem, ctx) && SameOutside(mem, m, written)
    requires forall f :: f in TablesOf(sp) ==> f !in written
    requires ctx.pml4 !in written && ctx.pdpt !in written && ctx.pd !in written
    ensures Built(m, ctx, sp, flags, count) && SoundSource(m, ctx)
  {
    TableKept(mem, m, written, ctx.pml4);
    TableKept(mem, m, written, ctx.pdpt);
    TableKept(mem, m, written, ctx.pd);
    TableKept(mem, m, written, sp.cr3);
    TableKept(mem, m, written, sp.pdpt);
    TableKept(mem, m, written, sp.codePd);
    TableKept(mem, m, written, sp.stackPd);
    TableKept(mem, m, written, sp.codePt);
    TableKept(mem, m, written, sp.stackPt);
    SourceKept(mem, m, ctx);
    hide SameOutside, WordAt, Entry, SoundSource, IsTable, CodeWord;
  }

  // ----- replacing one slot

  lemma HeldReplace(procs: seq<Process>, i: nat, q: Process)
    requires i < |procs| && Apart(procs)
    ensures HeldBy(procs[i := q]) == HeldBy(procs) - Owned(procs[i]) + Owned(q)
    ensures Owned(q) !! (HeldBy(procs) - Owned(procs[i])) ==> Apart(procs[i := q])
  {
    hide Owned;
    var ps := procs[i := q];
    var rest := HeldBy(procs) - Owned(procs[i]);
    forall f | f in HeldBy(ps) ensures f in rest + Owned(q) {
      var k :| 0 <= k < |ps| && f in Owned(ps[k]);
      if k != i {
        OtherHeld(procs, i, k);
      }
    }
    forall f | f in rest + Owned(q) ensures f in HeldBy(ps) {
      if f in Owned(q) {
        assert ps[i] == q;
      } else {
        var k :| 0 <= k < |procs| && f in Owned(procs[k]);
        assert ps[k] == procs[k];
      }
    }
    if Owned(q) !! rest {
      forall j, k | 0 <= j < k < |ps| ensures Owned(ps[j]) !! Owned(ps[k]) {
        if j == i {
          OtherHeld(procs, i, k);
        } else if k == i {
          OtherHeld(procs, i, j);
        }
      }
    }
  }

  lemma OtherHeld(procs: seq<Process>, i: nat, k: nat)
    requires i < |procs| && k < |procs| && i != k && Apart(procs)
    ensures Owned(procs[k]) <= HeldBy(procs) - Owned(procs[i])
  {
    hide Owned;
    assert Owned(procs[i]) !! Owned(procs[k]) by {
      if i < k {
        assert Owned(procs[i]) !! Owned(procs[k]);
      } else {
        assert Owned(procs[k]) !! Owned(procs[i]);
      }
    }
  }

  lemma SlotHeld(procs: seq<Process>, i: nat)
    requires i < |procs|
    ensures Owned(procs[i]) <= HeldBy(procs)
  {
  }

  /** Writes to pages that no slot holds keep every slot. */
  lemma SlotsKept(s: System, ctx: Context, pool: set<nat>, m: Memory, written: set<nat>)
    requires Inv(s, ctx, pool) && SameOutside(s.mem, m, written)
    requires written <= pool && written !! HeldBy(s.procs)
    ensures SourceOk(m, ctx, pool)
    ensures forall i :: 0 <= i < |s.procs| ==> SlotOk(m, ctx, s.procs[i])
  {
    hide Built, Pmm64.Splits, Apart, HeldBy;
    assert SourceOk(m, ctx, pool) by {
      TableKept(s.mem, m, written, ctx.pml4);
      TableKept(s.mem, m, written, ctx.pdpt);
      TableKept(s.mem, m, written, ctx.pd);
      SourceKept(s.mem, m, ctx);
    }
    forall i | 0 <= i < |s.procs| ensures SlotOk(m, ctx, s.procs[i]) {
      var p := s.procs[i];
      assert SlotOk(s.mem, ctx, p);
      SlotHeld(s.procs, i);
      if p.life != Unused {
        TablesListed(p.space);
        forall f | f in TablesOf(p.space) ensures f !in written {
          assert f in Frames(p);
          assert f in Owned(p);
        }
        BuiltKept(s.mem, m, written, ctx, p.space, p.flags, p.count);
      }
    }
  }

  // ----- acquiring frames for a slot

  lemma SpaceOfFrames(pages: seq<nat>)
    requires |pages| == 11
    ensures FramesOf(SpaceOf(pages)) == pages && |SpaceOf(pages).code| == MAX_PAGES
  {
  }

  /** Eleven pages taken from the pool make a space apart from the kernel's tables. */
  lemma TakenSeparate(q: Pmm64.State, held: set<nat>, pool: set<nat>, pages: seq<nat>, ctx: Context)
    requires Pmm64.Took(q, held, pool, pages) && |pages| == 11 && 0 !in pages
    requires ctx.pml4 !in pool && ctx.pdpt !in pool && ctx.pd !in pool
    ensures Separate(ctx, SpaceOf(pages))
    ensures forall f :: f in pages ==> f in pool && f % PAGE == 0 && f !in held
  {
    SpaceOfFrames(pages);
    forall f | f in pages ensures f in pool && f % PAGE == 0 && f !in held {
      assert f in Pmm64.Got(pages);
      assert Pmm64.Manageable(q, f);
    }
  }

  ghost predicate FlagsOk(flags: seq<nat>, count: nat) {
    |flags| == MAX_PAGES && 0 < count <= MAX_PAGES && forall i :: 0 <= i < count ==> CodeFlags(flags[i])
  }

  ghost predicate FromPool(sp: Space, pool: set<nat>) {
    0 !in FramesOf(sp) && Reached(FramesOf(sp)) && forall f :: f in FramesOf(sp) ==> f in pool && f % PAGE == 0
  }

  /** Writing a space of pool frames into memory: its tables are built, both of the kernel's
      checks pass, and no other frame changes. */
  lemma InstallSpace(mem: Memory, ctx: Context, pool: set<nat>, sp: Space, flags: seq<nat>, count: nat,
      pages: seq<seq<nat>>)
    requires SourceOk(mem, ctx, pool) && Separate(ctx, sp) && FromPool(sp, pool)
    requires FlagsOk(flags, count) && |pages| == MAX_PAGES
    ensures var m := Installed(mem, ctx, sp, flags, count, pages);
      && SourceOk(m, ctx, pool) && Built(m, ctx, sp, flags, count) && Aligned(sp, flags, count)
      && KernelMappingsValid(m, ctx, sp) && UserTablesValid(m, ctx, sp, flags, count)
      && SameOutside(mem, m, Pmm64.Got(FramesOf(sp)))
  {
    hide Built, SoundSource, KernelMappingsValid, UserTablesValid, Installed, FramesOf;
    var m := Installed(mem, ctx, sp, flags, count, pages);
    InstalledBuilt(mem, ctx, sp, flags, count, pages);
    InstalledFrames(mem, ctx, sp, flags, count, pages);
    InstalledCodeSlot(mem, ctx, sp, flags, count, pages);
    FramesListed(sp);
    ValidationsPass(m, ctx, sp, flags, count);
  }

  lemma InstalledCodeSlot(mem: Memory, ctx: Context, sp: Space, flags: seq<nat>, count: nat, pages: seq<seq<nat>>)
    requires SoundSource(mem, ctx) && Separate(ctx, sp) && |pages| == MAX_PAGES
    ensures WordAt(Installed(mem, ctx, sp, flags, count, pages), ctx.pd, 2) == WordAt(mem, ctx.pd, 2)
  {
    hide Separate, Installed;
    InstalledTables(mem, ctx, sp, flags, count, pages);
  }

  /** The `n` pages allocated next are within the kernel's reach. */
  predicate TopReached(p: Pmm64.State, n: nat)
    requires n <= |p.stack|
  {
    forall j :: |p.stack| - n <= j < |p.stack| ==> Windowed(p.stack[j])
  }

  /** How many pages the next creation writes: all twelve, the eleven of a space that is given
      back for want of a stack, or none. */
  function Written(p: Pmm64.State): (n: nat)
    ensures n <= |p.stack|
  {
    if |p.stack| >= FRAMES_PER_PROCESS then FRAMES_PER_PROCESS else if |p.stack| == 11 then 11 else 0
  }

  predicate Strays(p: Pmm64.State) { !TopReached(p, Written(p)) }

  lemma NextReached(p: Pmm64.State, n: nat)
    requires p.ready && n <= |p.stack|
    ensures Reached(Pmm64.AllocMany(p, n).1) <==> TopReached(p, n)
  {
    hide Windowed, Pmm64.AllocMany;
    Pmm64.AllocManyPops(p, n);
    var pages := Pmm64.AllocMany(p, n).1;
    forall j | |p.stack| - n <= j < |p.stack| ensures p.stack[j] in pages {
      assert pages[|p.stack| - 1 - j] == p.stack[j];
    }
  }

  /** After eleven pages the twelfth is on top. */
  lemma TwelfthPage(p: Pmm64.State)
    requires p.ready && |p.stack| >= 12
    ensures var a := Pmm64.Alloc(p.(stack := p.stack[..|p.stack| - 11]));
      && a.state == p.(stack := p.stack[..|p.stack| - 12])
      && (TopReached(p, 12) <==> TopReached(p, 11) && Windowed(a.page))
  {
    hide Windowed;
    assert p.stack[..|p.stack| - 11][..|p.stack| - 12] == p.stack[..|p.stack| - 12];
  }

  lemma SplitsReady(p: Pmm64.State, held: set<nat>, pool: set<nat>)
    requires Pmm64.Splits(p, held, pool)
    ensures p.ready
  {
  }

  lemma SpaceRunsOut(s: System, ctx: Context, pool: set<nat>, i: nat)
    requires Inv(s, ctx, pool) && i < |s.procs| && s.procs[i] == EMPTY && |s.pmm.stack| < 11
    ensures Shaped(s)
    ensures var r := AllocateSpace(s, i);
      !r.1 && r.0 == s.(pmm := r.0.pmm) && Pmm64.Splits(r.0.pmm, HeldBy(s.procs), pool)
  {
    hide Built, SlotOk, SourceOk, Apart, HeldBy, Shaped, FramesOf, SpaceOf, Installed, KernelMappingsValid,
      UserTablesValid;
    hide Pmm64.Splits, Pmm64.Got, Pmm64.Distinct, Pmm64.AllocMany, Pmm64.FreeAll;
    InvShaped(s, ctx, pool);
    var a := Pmm64.AllocMany(s.pmm, 11);
    Pmm64.AllocManySplits(s.pmm, HeldBy(s.procs), pool, 11);
    SpaceOfFrames(a.1);
    var held := HeldBy(s.procs);
    Pmm64.FreeAllSplits(a.0, held + Pmm64.Got(a.1), pool, a.1);
    assert held + Pmm64.Got(a.1) - Pmm64.Got(a.1) == held;
    assert s.procs[i := EMPTY] == s.procs;
  }

  /** The slot an address space was just taken for: EMPTY but for the space. */
  function WithSpace(sp: Space): Process {
    EMPTY.(space := sp, flags := [P_U, 0, 0, 0], count := 1, kernelReady := true, tablesReady := true)
  }

  ghost predicate SpaceReady(s: System, t: System, ctx: Context, pool: set<nat>, sp: Space) {
    && Pmm64.Took(t.pmm, HeldBy(s.procs), pool, FramesOf(sp))
    && Separate(ctx, sp) && FromPool(sp, pool)
    && SourceOk(t.mem, ctx, pool) && SameOutside(s.mem, t.mem, Pmm64.Got(FramesOf(sp)))
  }

  lemma SpaceStrays(s: System, ctx: Context, pool: set<nat>, i: nat)
    requires Inv(s, ctx, pool) && i < |s.procs| && |s.pmm.stack| >= 11 && !TopReached(s.pmm, 11)
    ensures Shaped(s) && !AllocateSpace(s, i).1 && AllocateSpace(s, i).0.strayed
  {
    hide Built, SlotOk, SourceOk, Apart, HeldBy, Shaped, SpaceOf, Pmm64.AllocMany, TopReached;
    InvShaped(s, ctx, pool);
    Pmm64.AllocManySplits(s.pmm, HeldBy(s.procs), pool, 11);
    NextReached(s.pmm, 11);
  }

  lemma SpaceTaken(s: System, ctx: Context, pool: set<nat>, i: nat) returns (sp: Space)
    requires Inv(s, ctx, pool) && i < |s.procs| && s.procs[i] == EMPTY && |s.pmm.stack| >= 11 && TopReached(s.pmm, 11)
    ensures Shaped(s)
    ensures var r := AllocateSpace(s, i);
      && r.1 && r.0 == s.(mem := r.0.mem, pmm := r.0.pmm, procs := s.procs[i := WithSpace(sp)])
      && SpaceReady(s, r.0, ctx, pool, sp) && r.0.pmm == s.pmm.(stack := s.pmm.stack[..|s.pmm.stack| - 11])
      && Built(r.0.mem, ctx, sp, [P_U, 0, 0, 0], 1)
  {
    hide Built, SlotOk, SourceOk, Apart, HeldBy, Shaped, FramesOf, SpaceOf, Installed, KernelMappingsValid,
      UserTablesValid;
    hide Pmm64.Splits, Pmm64.Got, Pmm64.Distinct, Pmm64.AllocMany, Pmm64.FreeAll, Pmm64.Took, Separate, FromPool,
      SameOutside;
    InvShaped(s, ctx, pool);
    var a := Pmm64.AllocMany(s.pmm, 11);
    Pmm64.AllocManySplits(s.pmm, HeldBy(s.procs), pool, 11);
    SplitsReady(s.pmm, HeldBy(s.procs), pool);
    Pmm64.AllocManyPops(s.pmm, 11);
    NextReached(s.pmm, 11);
    sp := SpaceOf(a.1);
    SpaceOfFrames(a.1);
    SourceApart(s.mem, ctx, pool);
    TakenSeparate(a.0, HeldBy(s.procs), pool, a.1, ctx);
    TakenFromPool(sp, pool);
    InstallSpace(s.mem, ctx, pool, sp, [P_U, 0, 0, 0], 1, BlankPages());
    assert s.procs[i := WithSpace(sp)] == AllocateSpace(s, i).0.procs;
  }

  lemma TakenFromPool(sp: Space, pool: set<nat>)
    requires 0 !in FramesOf(sp) && Reached(FramesOf(sp)) && forall f :: f in FramesOf(sp) ==> f in pool && f % PAGE == 0
    ensures FromPool(sp, pool)
  {
  }

  lemma SourceApart(mem: Memory, ctx: Context, pool: set<nat>)
    requires SourceOk(mem, ctx, pool)
    ensures ctx.pml4 !in pool && ctx.pdpt !in pool && ctx.pd !in pool && Reached(SourceTables(ctx))
  {
  }

  /** The pages a step may write: those the allocator has free. */
  ghost predicate WritesFreeOnly(s: System, t: System, pool: set<nat>) {
    SameOutside(s.mem, t.mem, pool - HeldBy(s.procs))
  }

  lemma WrittenWider(mem: Memory, m: Memory, written: set<nat>, more: set<nat>)
    requires SameOutside(mem, m, written) && written <= more
    ensures SameOutside(mem, m, more)
  {
  }

  /** Slot `i` holds the space `sp` and the kernel stack `k`, all freshly taken. */
  ghost predicate Acquired(s: System, t: System, ctx: Context, pool: set<nat>, i: nat, sp: Space, k: nat) {
    && i < |s.procs|
    && t == s.(mem := t.mem, pmm := t.pmm, procs := s.procs[i := WithSpace(sp).(kernelStack := k)])
    && Pmm64.Took(t.pmm, HeldBy(s.procs), pool, FramesOf(sp) + [k]) && 0 !in FramesOf(sp) + [k]
    && Separate(ctx, sp) && FromPool(sp, pool) && Windowed(k)
    && SourceOk(t.mem, ctx, pool) && Built(t.mem, ctx, sp, [P_U, 0, 0, 0], 1)
    && WritesFreeOnly(s, t, pool)
  }

  lemma SpaceReadyParts(s: System, t: System, ctx: Context, pool: set<nat>, sp: Space)
    requires SpaceReady(s, t, ctx, pool, sp)
    ensures Pmm64.Splits(t.pmm, HeldBy(s.procs) + Pmm64.Got(FramesOf(sp)), pool) && Pmm64.Distinct(FramesOf(sp))
    ensures WritesFreeOnly(s, t, pool) && 0 !in FramesOf(sp)
  {
    hide Pmm64.Splits, Built, SourceOk, Separate, HeldBy, Pmm64.Distinct;
    assert Pmm64.Got(FramesOf(sp)) <= pool - HeldBy(s.procs);
    WrittenWider(s.mem, t.mem, Pmm64.Got(FramesOf(sp)), pool - HeldBy(s.procs));
  }

  lemma WithSpaceReleased(sp: Space)
    ensures WithSpace(sp).(space := NO_SPACE, flags := NO_FLAGS, count := 0, kernelReady := false,
      tablesReady := false) == EMPTY
  {
  }

  /** With exactly eleven pages left the space is taken and given back. */
  lemma StackRunsOut(s: System, ctx: Context, pool: set<nat>, i: nat)
    requires Inv(s, ctx, pool) && i < |s.procs| && s.procs[i] == EMPTY && |s.pmm.stack| == 11 && TopReached(s.pmm, 11)
    ensures Shaped(s)
    ensures var r := Acquire(s, i);
      && !r.1 && r.0 == s.(mem := r.0.mem, pmm := r.0.pmm)
      && Pmm64.Splits(r.0.pmm, HeldBy(s.procs), pool) && WritesFreeOnly(s, r.0, pool)
  {
    hide Built, SlotOk, SourceOk, Apart, HeldBy, Shaped, FramesOf, SpaceReady, SameOutside, AllocateSpace, WithSpace;
    hide Pmm64.Splits, Pmm64.Got, Pmm64.Distinct, Pmm64.FreeAll;
    InvShaped(s, ctx, pool);
    var sp := SpaceTaken(s, ctx, pool, i);
    var t := AllocateSpace(s, i).0;
    SpaceReadyParts(s, t, ctx, pool, sp);
    var held := HeldBy(s.procs);
    Pmm64.FreeAllSplits(t.pmm, held + Pmm64.Got(FramesOf(sp)), pool, FramesOf(sp));
    assert held + Pmm64.Got(FramesOf(sp)) - Pmm64.Got(FramesOf(sp)) == held by { TookDisjoint(s, t, ctx, pool, sp); }
    WithSpaceReleased(sp);
    assert WithSpace(sp).space == sp by { SpaceOfWith(sp); }
    assert s.procs[i := WithSpace(sp)][i := EMPTY] == s.procs;
  }

  lemma SpaceOfWith(sp: Space)
    ensures WithSpace(sp).space == sp
  {
  }

  lemma TookDisjoint(s: System, t: System, ctx: Context, pool: set<nat>, sp: Space)
    requires SpaceReady(s, t, ctx, pool, sp)
    ensures Pmm64.Got(FramesOf(sp)) !! HeldBy(s.procs)
  {
  }

  /** Twelve free pages suffice for the space and the kernel stack. */
  lemma AcquireSucceeds(s: System, ctx: Context, pool: set<nat>, i: nat) returns (sp: Space, k: nat)
    requires Inv(s, ctx, pool) && i < |s.procs| && s.procs[i] == EMPTY && |s.pmm.stack| >= 12 && TopReached(s.pmm, 12)
    ensures Shaped(s)
    ensures Acquire(s, i).1 && Acquired(s, Acquire(s, i).0, ctx, pool, i, sp, k)
    ensures Acquire(s, i).0.pmm == s.pmm.(stack := s.pmm.stack[..|s.pmm.stack| - 12])
  {
    hide Built, SlotOk, SourceOk, Apart, HeldBy, Shaped, FramesOf, SpaceReady, SameOutside, AllocateSpace, WithSpace;
    hide Pmm64.Splits, Pmm64.Got, Pmm64.Distinct, Pmm64.Took, Pmm64.Alloc, Separate, FromPool, TopReached, Windowed;
    InvShaped(s, ctx, pool);
    SplitsReady(s.pmm, HeldBy(s.procs), pool);
    TwelfthPage(s.pmm);
    sp := SpaceTaken(s, ctx, pool, i);
    var t := AllocateSpace(s, i).0;
    SpaceReadyParts(s, t, ctx, pool, sp);
    var held := HeldBy(s.procs) + Pmm64.Got(FramesOf(sp));
    Pmm64.AllocSplits(t.pmm, held, pool);
    Pmm64.AllocPops(t.pmm, held, pool);
    k := Pmm64.Alloc(t.pmm).page;
    StackAdded(s, t, ctx, pool, sp, k, Pmm64.Alloc(t.pmm).state);
    assert s.procs[i := WithSpace(sp)][i := WithSpace(sp).(kernelStack := k)] ==
      s.procs[i := WithSpace(sp).(kernelStack := k)];
  }

  /** A page out of reach among those written stops the machine. */
  lemma AcquireStrays(s: System, ctx: Context, pool: set<nat>, i: nat)
    requires Inv(s, ctx, pool) && i < |s.procs| && s.procs[i] == EMPTY && Strays(s.pmm)
    ensures Shaped(s) && !Acquire(s, i).1 && Acquire(s, i).0.strayed
  {
    hide Built, SlotOk, SourceOk, Apart, HeldBy, Shaped, FramesOf, SpaceReady, SameOutside, AllocateSpace, WithSpace;
    hide Pmm64.Splits, Pmm64.Got, Pmm64.Distinct, Pmm64.Alloc, TopReached, Windowed;
    InvShaped(s, ctx, pool);
    SplitsReady(s.pmm, HeldBy(s.procs), pool);
    assert |s.pmm.stack| >= 11 by { NoneReached(s.pmm); }
    if !TopReached(s.pmm, 11) {
      SpaceStrays(s, ctx, pool, i);
    } else {
      TwelfthPage(s.pmm);
      var sp := SpaceTaken(s, ctx, pool, i);
      SpaceReadyParts(s, AllocateSpace(s, i).0, ctx, pool, sp);
      Pmm64.AllocPops(AllocateSpace(s, i).0.pmm, HeldBy(s.procs) + Pmm64.Got(FramesOf(sp)), pool);
    }
  }

  lemma NoneReached(p: Pmm64.State)
    ensures TopReached(p, 0)
  {
  }

  lemma StackAdded(s: System, t: System, ctx: Context, pool: set<nat>, sp: Space, k: nat, q: Pmm64.State)
    requires SpaceReady(s, t, ctx, pool, sp) && Built(t.mem, ctx, sp, [P_U, 0, 0, 0], 1)
    requires k != 0 && k !in HeldBy(s.procs) + Pmm64.Got(FramesOf(sp)) && Windowed(k)
    requires Pmm64.Splits(q, HeldBy(s.procs) + Pmm64.Got(FramesOf(sp)) + {k}, pool)
    ensures var m := t.mem[k := Data(ZeroPage())];
      && Pmm64.Took(q, HeldBy(s.procs), pool, FramesOf(sp) + [k]) && 0 !in FramesOf(sp) + [k]
      && Separate(ctx, sp) && FromPool(sp, pool)
      && SourceOk(m, ctx, pool) && Built(m, ctx, sp, [P_U, 0, 0, 0], 1)
      && SameOutside(s.mem, m, pool - HeldBy(s.procs))
  {
    hide Built, HeldBy, FramesOf, Pmm64.Splits, Separate;
    var m := t.mem[k := Data(ZeroPage())];
    SpaceReadyParts(s, t, ctx, pool, sp);
    Pmm64.TookSnoc(t.pmm, q, HeldBy(s.procs), pool, FramesOf(sp), k);
    assert k in pool by { InPool(q, HeldBy(s.procs) + Pmm64.Got(FramesOf(sp)) + {k}, pool, k); }
    TablesListed(sp);
    forall f | f in TablesOf(sp) ensures f !in {k} {
      assert f in Pmm64.Got(FramesOf(sp));
    }
    assert SameOutside(t.mem, m, {k});
    BuiltKept(t.mem, m, {k}, ctx, sp, [P_U, 0, 0, 0], 1);
  }

  lemma InPool(q: Pmm64.State, held: set<nat>, pool: set<nat>, k: nat)
    requires Pmm64.Splits(q, held, pool) && k in held
    ensures k in pool
  {
  }
}
