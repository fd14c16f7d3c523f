/** Where the kernel's stores go. It writes a physical page at the virtual address equal to the
    page's number, under its own tables or those of the process that called it; system calls
    store at addresses the process names. */
module KernelWindow64 {
  import opened MachineWords
  import opened UserLayout64
  import opened Wrappers
  import opened Paging64
  import opened AddressSpace64
  import opened SpaceInstall64
  import opened PagingBuilder64
  import opened Processes64
  import opened ProcessFrames64
  import opened ProcessCreate64
  import opened ProcessRuns64
  import Finite
  import Pmm64

  const CANONICAL_LOW: nat := 0x8000_0000_0000
  const PHYSICAL: nat := 0x10_0000_0000_0000

  /** Addresses the processor accepts; physical ones have at most 52 bits. */
  predicate Canonical(va: nat) { va < CANONICAL_LOW || va >= DIRECT_BASE }

  /** A supervisor access to address `a` ends at physical address `a`. */
  predicate LandsAt(mem: Memory, cr3: nat, a: nat) {
    Canonical(a) && Walk(mem, cr3, a).Some? && Walk(mem, cr3, a).value.phys == a
  }

  /** Every byte of page `f` is reached at its own address. */
  ghost predicate Reaches(mem: Memory, cr3: nat, f: nat) {
    forall a :: f <= a < f + PAGE ==> LandsAt(mem, cr3, a)
  }

  // ----- the low half of the kernel's own tables

  lemma BlankWords(mem: Memory, t: Tables, plan: Plan, i: nat)
    requires InPlace(mem, t, plan) && i < WORDS
    ensures 0 < i < DIRECT_INDEX ==> !Present(WordAt(mem, t.pml4, i))
    ensures i >= 2 ==> !Present(WordAt(mem, t.pdpt, i))
    ensures i != 511 ==> !Present(WordAt(mem, t.stackPd, i)) && !Present(WordAt(mem, t.stackPt, i))
  {
    hide Entry, Holds, Index2, Index3, KernelVirtual, KernelPtWords, CodePtWords, ScreenPdWords, ScreenPdptWords,
      HugeWords, Present;
    ZeroAbsent();
    HeldWord(mem, t.pml4, Pml4Words(t), i);
    HeldWord(mem, t.pdpt, PdptWords(t), i);
    HeldWord(mem, t.stackPd, One(511, Entry(t.stackPt, P_W_U)), i);
    HeldWord(mem, t.stackPt, One(511, Entry(t.stack, P_W_U)), i);
  }

  lemma UserWords(mem: Memory, t: Tables, plan: Plan, i: nat)
    requires InPlace(mem, t, plan) && FramesAligned(t) && i < WORDS
    ensures Leads(WordAt(mem, t.pdpt, 1), t.stackPd) && Leads(WordAt(mem, t.stackPd, 511), t.stackPt)
    ensures Leads(WordAt(mem, t.stackPt, 511), t.stack) && Leads(WordAt(mem, t.pd, 2), t.codePt)
    ensures if i < plan.imagePages && i < |t.code| then CodeLeads(WordAt(mem, t.codePt, i), t.code[i], P_U)
            else !Present(WordAt(mem, t.codePt, i))
  {
    hide Leads, CodeLeads, Entry, Holds, Index2, Index3, KernelVirtual, KernelPtWords, ScreenPdWords, ScreenPdptWords,
      HugeWords, Present;
    ZeroAbsent();
    HeldWord(mem, t.pdpt, PdptWords(t), 1);
    HeldWord(mem, t.stackPd, One(511, Entry(t.stackPt, P_W_U)), 511);
    HeldWord(mem, t.stackPt, One(511, Entry(t.stack, P_W_U)), 511);
    assert |HugeWords()| == WORDS by { HugeCount(); }
    HeldWord(mem, t.pd, PdWords(t), 2);
    HeldWord(mem, t.codePt, CodePtWords(t, plan), i);
    EntryLeads(t.stackPd);
    EntryLeads(t.stackPt);
    EntryLeads(t.stack);
    EntryLeads(t.codePt);
    if i < |t.code| {
      CodeEntryLeads(t.code[i], P_U);
    }
  }

  lemma HugeCount()
    ensures |HugeWords()| == WORDS
  {
  }

  /** The code slot holds the first program's pages and nothing else. */
  lemma SlotWalk(mem: Memory, t: Tables, plan: Plan, va: nat)
    requires InPlace(mem, t, plan) && FramesAligned(t) && CODE_BASE <= va < CODE_SLOT_END
    ensures var i := (va - CODE_BASE) / PAGE;
      Walk(mem, t.pml4, va) ==
      if i < plan.imagePages && i < |t.code| then Some(Leaf(t.code[i] + va % PAGE, true, false)) else None
  {
    hide InPlace, FramesAligned, Present, Writable, User, Huge, FrameOf, Index4, Index3, Index2, Index1, WordAt;
    SlotIndices(va);
    TopWords(mem, t, plan);
    UserWords(mem, t, plan, (va - CODE_BASE) / PAGE);
  }

  lemma SlotIndices(va: nat)
    requires CODE_BASE <= va < CODE_SLOT_END
    ensures Index4(va) == 0 && Index3(va) == 0 && Index2(va) == 2 && Index1(va) == (va - CODE_BASE) / PAGE < WORDS
  {
  }

  /** The second GiB holds the first program's stack page and nothing else. */
  lemma SecondWalk(mem: Memory, t: Tables, plan: Plan, va: nat)
    requires InPlace(mem, t, plan) && FramesAligned(t) && GIB <= va < STACK_TOP
    ensures Walk(mem, t.pml4, va) == if STACK_PAGE <= va then Some(Leaf(t.stack + va % PAGE, true, true)) else None
  {
    hide InPlace, FramesAligned, Present, Writable, User, Huge, FrameOf, Index4, Index3, Index2, Index1, WordAt;
    SecondIndices(va);
    TopWords(mem, t, plan);
    UserWords(mem, t, plan, 0);
    BlankWords(mem, t, plan, Index2(va));
    BlankWords(mem, t, plan, Index1(va));
  }

  lemma SecondIndices(va: nat)
    requires GIB <= va < STACK_TOP
    ensures Index4(va) == 0 && Index3(va) == 1 && (Index2(va) == 511 && Index1(va) == 511 <==> STACK_PAGE <= va)
  {
  }

  /** The rest of the low half is not mapped. */
  lemma BeyondWalk(mem: Memory, t: Tables, plan: Plan, va: nat)
    requires InPlace(mem, t, plan) && FramesAligned(t) && STACK_TOP <= va < CANONICAL_LOW
    ensures Walk(mem, t.pml4, va) == None
  {
    hide InPlace, FramesAligned, Present, Writable, User, Huge, FrameOf, Index4, Index3, Index2, Index1, WordAt;
    BeyondIndices(va);
    TopWords(mem, t, plan);
    BlankWords(mem, t, plan, Index4(va));
    BlankWords(mem, t, plan, Index3(va));
  }

  lemma BeyondIndices(va: nat)
    requires STACK_TOP <= va < CANONICAL_LOW
    ensures Index4(va) < DIRECT_INDEX && (Index4(va) == 0 ==> Index3(va) >= 2)
  {
  }

  // ----- the pages the kernel reaches

  lemma InWindow(f: nat, a: nat)
    requires f % PAGE == 0 && Windowed(f) && f <= a < f + PAGE
    ensures a < GIB && !(CODE_BASE <= a < CODE_SLOT_END)
  {
  }

  lemma OutsideWindow(f: nat)
    requires f % PAGE == 0 && !Windowed(f) && f < GIB
    ensures CODE_BASE <= f < CODE_SLOT_END
  {
  }

  /** Under its own tables the kernel reaches a page, other than the first program's, exactly
      when it lies in the window. */
  lemma KernelReachesExactly(mem: Memory, t: Tables, plan: Plan, f: nat)
    requires InPlace(mem, t, plan) && FramesAligned(t) && f % PAGE == 0 && f < PHYSICAL
    requires f !in t.code && f != t.stack
    ensures Reaches(mem, t.pml4, f) <==> Windowed(f)
    ensures !Windowed(f) ==> !LandsAt(mem, t.pml4, f)
  {
    hide InPlace, FramesAligned, Walk, Windowed;
    if Windowed(f) {
      forall a | f <= a < f + PAGE ensures LandsAt(mem, t.pml4, a) {
        InWindow(f, a);
        IdentityWalk(mem, t, plan, a);
      }
    } else {
      if f < GIB {
        OutsideWindow(f);
        SlotWalk(mem, t, plan, f);
      } else if f < STACK_TOP {
        SecondWalk(mem, t, plan, f);
      } else if f < CANONICAL_LOW {
        BeyondWalk(mem, t, plan, f);
      }
      assert !LandsAt(mem, t.pml4, f);
    }
  }

  function FramesIn(t: Tables): seq<nat> {
    [t.pml4, t.pdpt, t.pd, t.directPdpt, t.directPd, t.screenPdpt, t.screenPd, t.kernelPdpt, t.kernelPd, t.kernelPt,
      t.codePt,
     t.stackPd, t.stackPt, t.stack] + t.code
  }

  function ContextOf(t: Tables): Context { Context(t.pml4, t.pdpt, t.pd) }

  /** The kernel's tables are as built, outside the allocator's pool. */
  ghost predicate Intact(mem: Memory, t: Tables, plan: Plan, pool: set<nat>) {
    InPlace(mem, t, plan) && FramesAligned(t) && forall f :: f in FramesIn(t) ==> f !in pool
  }

  lemma HoldsKept(mem: Memory, m: Memory, pool: set<nat>, f: nat, words: seq<nat>)
    requires Holds(mem, f, words) && SameOutside(mem, m, pool) && f !in pool
    ensures Holds(m, f, words)
  {
  }

  lemma TableFrames(t: Tables)
    ensures var fs := FramesIn(t);
      && t.pml4 in fs && t.pdpt in fs && t.pd in fs && t.directPdpt in fs && t.directPd in fs && t.screenPdpt in fs
      && t.screenPd in fs && t.kernelPdpt in fs && t.kernelPd in fs && t.kernelPt in fs && t.codePt in fs
      && t.stackPd in fs && t.stackPt in fs && t.stack in fs && forall f :: f in t.code ==> f in fs
  {
    var fs := FramesIn(t);
    assert fs[0] == t.pml4 && fs[1] == t.pdpt && fs[2] == t.pd && fs[3] == t.directPdpt && fs[4] == t.directPd;
    assert fs[5] == t.screenPdpt && fs[6] == t.screenPd && fs[7] == t.kernelPdpt && fs[8] == t.kernelPd;
    assert fs[9] == t.kernelPt && fs[10] == t.codePt && fs[11] == t.stackPd && fs[12] == t.stackPt && fs[13] == t.stack;
  }

  lemma IntactKept(mem: Memory, m: Memory, t: Tables, plan: Plan, pool: set<nat>)
    requires Intact(mem, t, plan, pool) && SameOutside(mem, m, pool)
    ensures Intact(m, t, plan, pool)
  {
    hide FramesIn, Holds, SameOutside, FramesAligned, Pml4Words, PdptWords, PdWords, HugeWords, ScreenPdptWords,
      ScreenPdWords, KernelPtWords, CodePtWords, One, Entry, Index2, Index3, KernelVirtual;
    TableFrames(t);
    HoldsKept(mem, m, pool, t.pml4, Pml4Words(t));
    HoldsKept(mem, m, pool, t.pdpt, PdptWords(t));
    HoldsKept(mem, m, pool, t.pd, PdWords(t));
    HoldsKept(mem, m, pool, t.directPdpt, One(0, Entry(t.directPd, P_W)));
    HoldsKept(mem, m, pool, t.directPd, HugeWords());
    HoldsKept(mem, m, pool, t.screenPdpt, ScreenPdptWords(t, plan));
    HoldsKept(mem, m, pool, t.screenPd, ScreenPdWords(plan));
    HoldsKept(mem, m, pool, t.kernelPdpt, One(Index3(KernelVirtual(plan)), Entry(t.kernelPd, P_W)));
    HoldsKept(mem, m, pool, t.kernelPd, One(Index2(KernelVirtual(plan)), Entry(t.kernelPt, P_W)));
    HoldsKept(mem, m, pool, t.kernelPt, KernelPtWords(plan));
    HoldsKept(mem, m, pool, t.codePt, CodePtWords(t, plan));
    HoldsKept(mem, m, pool, t.stackPd, One(511, Entry(t.stackPt, P_W_U)));
    HoldsKept(mem, m, pool, t.stackPt, One(511, Entry(t.stack, P_W_U)));
  }

  lemma IntactApart(mem: Memory, t: Tables, plan: Plan, pool: set<nat>, f: nat)
    requires Intact(mem, t, plan, pool) && f in pool
    ensures InPlace(mem, t, plan) && FramesAligned(t) && f !in t.code && f != t.stack
  {
    hide InPlace, FramesAligned, FramesIn;
    TableFrames(t);
  }

  /** The same under the tables of any process. */
  lemma ProcessReachesExactly(mem: Memory, t: Tables, plan: Plan, pool: set<nat>, p: Process, f: nat)
    requires Intact(mem, t, plan, pool) && SourceOk(mem, ContextOf(t), pool) && SlotOk(mem, ContextOf(t), p)
      && p.life != Unused
    requires f in pool && f % PAGE == 0 && f < PHYSICAL
    ensures Reaches(mem, p.space.cr3, f) <==> Windowed(f)
  {
    hide Intact, Built, SoundSource, Walk, Windowed, PlaceOf, Pmm64.Distinct, FramesOf;
    IntactApart(mem, t, plan, pool, f);
    KernelReachesExactly(mem, t, plan, f);
    if Windowed(f) {
      forall a | f <= a < f + PAGE ensures LandsAt(mem, p.space.cr3, a) {
        InWindow(f, a);
        LowPlace(a, p.count);
        WalkOf(mem, ContextOf(t), p.space, p.flags, p.count, a);
        assert LandsAt(mem, t.pml4, a);
      }
    } else {
      assert !LandsAt(mem, p.space.cr3, f) by { ProcessMisses(mem, t, plan, pool, p, f); }
    }
  }

  lemma LowPlace(va: nat, count: nat)
    requires va < GIB && !(CODE_BASE <= va < CODE_SLOT_END) && count <= MAX_PAGES
    ensures PlaceOf(va, count) == Low
  {
    hide PlaceOf;
    PlaceRanges(va, count);
    LowIndices(va);
    LowOnly(va, count);
  }

  lemma LowOnly(va: nat, count: nat)
    requires Index4(va) == 0 && Index3(va) == 0
    ensures PlaceOf(va, count).Low? || PlaceOf(va, count).CodePage? || PlaceOf(va, count).CodeHole?
  {
  }

  lemma ProcessMisses(mem: Memory, t: Tables, plan: Plan, pool: set<nat>, p: Process, f: nat)
    requires Intact(mem, t, plan, pool) && SourceOk(mem, ContextOf(t), pool) && SlotOk(mem, ContextOf(t), p)
      && p.life != Unused
    requires f in pool && f % PAGE == 0 && f < PHYSICAL && !Windowed(f)
    ensures !LandsAt(mem, p.space.cr3, f)
  {
    hide Intact, Built, SoundSource, Walk, Windowed, PlaceOf, Pmm64.Distinct, FramesOf;
    IntactApart(mem, t, plan, pool, f);
    KernelReachesExactly(mem, t, plan, f);
    WalkOf(mem, ContextOf(t), p.space, p.flags, p.count, f);
    match PlaceOf(f, p.count) {
      case CodePage(i) => OwnWindowed(p, p.space.code[i]);
      case Stack => OwnWindowed(p, p.space.stack);
      case _ =>
    }
  }

  lemma OwnWindowed(p: Process, f: nat)
    requires Reached(Frames(p)) && (f in p.space.code || f == p.space.stack)
    ensures Windowed(f)
  {
    hide Windowed;
    FramesListed(p.space);
    assert f in Frames(p);
  }

  /** Some tables the kernel may be running on: its own, or a live process's. */
  ghost predicate Active(s: System, ctx: Context, cr3: nat) {
    cr3 == ctx.pml4 || exists i :: 0 <= i < |s.procs| && s.procs[i].life != Unused && s.procs[i].space.cr3 == cr3
  }

  /** At every moment of a creation, when any of the free pages may already have been written,
      and whichever tables are active, a store at a free page's own address lands in the page
      exactly when the page lies in the window. */
  lemma StoresLandExactly(s: System, t: Tables, plan: Plan, pool: set<nat>, m: Memory, cr3: nat, f: nat)
    requires Inv(s, ContextOf(t), pool) && Intact(s.mem, t, plan, pool) && SameOutside(s.mem, m, pool - HeldBy(s.procs))
    requires Active(s, ContextOf(t), cr3) && f in pool && f % PAGE == 0 && f < PHYSICAL
    ensures Reaches(m, cr3, f) <==> Windowed(f)
  {
    hide Intact, SlotOk, SourceOk, Apart, HeldBy, Pmm64.Splits, SameOutside, Reaches, Windowed;
    var ctx := ContextOf(t);
    SlotsKept(s, ctx, pool, m, pool - HeldBy(s.procs));
    WrittenWider(s.mem, m, pool - HeldBy(s.procs), pool);
    IntactKept(s.mem, m, t, plan, pool);
    if cr3 == ctx.pml4 {
      IntactApart(m, t, plan, pool, f);
      KernelReachesExactly(m, t, plan, f);
    } else {
      var i :| 0 <= i < |s.procs| && s.procs[i].life != Unused && s.procs[i].space.cr3 == cr3;
      ProcessReachesExactly(m, t, plan, pool, s.procs[i], f);
    }
  }

  /** The kernel's tables survive every run, so the window stays what it is. */
  lemma RunIntact(s: System, t: Tables, plan: Plan, pool: set<nat>, ops: seq<Op>)
    requires Inv(s, ContextOf(t), pool) && Intact(s.mem, t, plan, pool) && AllStaged(ops)
    ensures var u := Run(s, ContextOf(t), pool, ops); !u.strayed ==> Intact(u.mem, t, plan, pool)
  {
    hide Inv, Intact, SameOutside, Run, AllStaged, Live;
    RunConserves(s, ContextOf(t), pool, ops);
    if !Run(s, ContextOf(t), pool, ops).strayed {
      IntactKept(s.mem, Run(s, ContextOf(t), pool, ops).mem, t, plan, pool);
    }
  }

  // ----- stores system calls make for a process

  /** `x86_64_syscall_user_range_ok`. */
  predicate UserRangeOk(address: nat, size: nat) {
    size == 0 || (address >= CODE_BASE && (address + size) % U64 >= address && (address + size) % U64 <= CANONICAL_LOW)
  }

  /** The check accepts exactly the ranges from the code base up to the canonical limit. */
  lemma UserRangeExactly(address: nat, size: nat)
    requires address < U64 && 0 < size < U64
    ensures UserRangeOk(address, size) <==> CODE_BASE <= address && address + size <= CANONICAL_LOW
  {
    if address + size >= U64 {
      assert (address + size) % U64 == address + size - U64;
    }
  }

  /** A supervisor access at an accepted address ends outside the process's own user pages
      exactly when it names, in the identity window above the slot, a page that is not one of
      them. */
  lemma AcceptedEndsExactly(s: System, t: Tables, plan: Plan, pool: set<nat>, i: nat, va: nat)
    requires Inv(s, ContextOf(t), pool) && Intact(s.mem, t, plan, pool) && i < |s.procs| && s.procs[i].life != Unused
    requires CODE_BASE <= va < CANONICAL_LOW
    ensures var p, l := s.procs[i], Walk(s.mem, s.procs[i].space.cr3, va);
      && (l.Some? && FrameOf(l.value.phys) !in UserFrames(p) <==>
            CODE_SLOT_END <= va < GIB && FrameOf(va) !in UserFrames(p))
      && (CODE_SLOT_END <= va < GIB ==> l == Some(Leaf(va, false, true)))
  {
    hide Intact, Built, SoundSource, Walk, PlaceOf, Pmm64.Distinct, Pmm64.Splits, FramesOf, Apart, HeldBy, FrameOf,
      Reached;
    var p := s.procs[i];
    assert SlotOk(s.mem, ContextOf(t), p);
    IntactParts(s.mem, t, plan, pool);
    FramesListed(p.space);
    WalkOf(s.mem, ContextOf(t), p.space, p.flags, p.count, va);
    PlaceRanges(va, p.count);
    match PlaceOf(va, p.count) {
      case CodePage(k) => PageOfSum(p.space.code[k], va);
      case Stack => PageOfSum(p.space.stack, va);
      case CodeHole =>
      case StackHole =>
      case _ =>
        if va < GIB {
          IdentityWalk(s.mem, t, plan, va);
        } else {
          BeyondWalk(s.mem, t, plan, va);
        }
    }
  }

  /** Such an address always exists: a process has five user pages, and the window more. */
  lemma AcceptedElsewhere(s: System, t: Tables, plan: Plan, pool: set<nat>, i: nat) returns (va: nat)
    requires Inv(s, ContextOf(t), pool) && Intact(s.mem, t, plan, pool) && i < |s.procs| && s.procs[i].life != Unused
    ensures UserRangeOk(va, 4)
    ensures var l := Walk(s.mem, s.procs[i].space.cr3, va);
      l.Some? && !l.value.user && FrameOf(l.value.phys) !in UserFrames(s.procs[i])
  {
    hide Intact, Inv, Walk, FrameOf, UserFrames;
    assert |UserFrames(s.procs[i])| <= MAX_PAGES + 1 by { FewUserFrames(s, ContextOf(t), pool, i); }
    var pages := Finite.Pages(CODE_SLOT_END, MAX_PAGES + 2);
    Finite.PagesCardinality(CODE_SLOT_END, MAX_PAGES + 2);
    assert exists f :: f in pages && f !in UserFrames(s.procs[i]) by {
      if pages <= UserFrames(s.procs[i]) {
        Finite.SubsetCardinality(pages, UserFrames(s.procs[i]));
      }
    }
    va :| va in pages && va !in UserFrames(s.procs[i]);
    var k :| 0 <= k < MAX_PAGES + 2 && va == CODE_SLOT_END + k * PAGE;
    assert FrameOf(va) == va by { WholePage(va, k); }
    UserRangeExactly(va, 4);
    AcceptedEndsExactly(s, t, plan, pool, i, va);
  }

  lemma WholePage(va: nat, k: nat)
    requires va == CODE_SLOT_END + k * PAGE
    ensures FrameOf(va) == va
  {
    Quotient(va, PAGE, CODE_SLOT_END / PAGE + k, 0);
  }

  lemma FewUserFrames(s: System, ctx: Context, pool: set<nat>, i: nat)
    requires Inv(s, ctx, pool) && i < |s.procs| && s.procs[i].life != Unused
    ensures |UserFrames(s.procs[i])| <= MAX_PAGES + 1
  {
    hide Built, SoundSource, Pmm64.Splits, Apart, HeldBy;
    var p := s.procs[i];
    assert SlotOk(s.mem, ctx, p);
    Finite.ElementsBound(p.space.code + [p.space.stack]);
    assert UserFrames(p) == Finite.Elements(p.space.code + [p.space.stack]);
  }

  lemma IntactParts(mem: Memory, t: Tables, plan: Plan, pool: set<nat>)
    requires Intact(mem, t, plan, pool)
    ensures InPlace(mem, t, plan) && FramesAligned(t)
  {
  }

  // ----- before the tables are active

  /** The tables the boot code identity-maps the first GiB with. */
  ghost predicate BootTables(mem: Memory, b: Context) {
    && b.pdpt % PAGE == 0 && b.pd % PAGE == 0
    && Holds(mem, b.pml4, One(0, Entry(b.pdpt, P_W))) && Holds(mem, b.pdpt, One(0, Entry(b.pd, P_W)))
    && Holds(mem, b.pd, HugeWords())
  }

  lemma BootWords(mem: Memory, b: Context, i: nat)
    requires BootTables(mem, b) && i < WORDS
    ensures LeadsKernel(WordAt(mem, b.pml4, 0), b.pdpt) && LeadsKernel(WordAt(mem, b.pdpt, 0), b.pd)
    ensures MapsHuge(WordAt(mem, b.pd, i), i * HUGE)
    ensures i > 0 ==> !Present(WordAt(mem, b.pml4, i)) && !Present(WordAt(mem, b.pdpt, i))
  {
    hide LeadsKernel, MapsHuge, Entry, Holds, Present, HugeWord;
    ZeroAbsent();
    HeldWord(mem, b.pml4, One(0, Entry(b.pdpt, P_W)), 0);
    HeldWord(mem, b.pml4, One(0, Entry(b.pdpt, P_W)), i);
    HeldWord(mem, b.pdpt, One(0, Entry(b.pd, P_W)), 0);
    HeldWord(mem, b.pdpt, One(0, Entry(b.pd, P_W)), i);
    HeldWord(mem, b.pd, HugeWords(), i);
    EntryLeadsKernel(b.pdpt);
    EntryLeadsKernel(b.pd);
    HugeWordBits(0, i);
  }

  lemma BootWalk(mem: Memory, b: Context, va: nat)
    requires BootTables(mem, b) && va < CANONICAL_LOW
    ensures Walk(mem, b.pml4, va) == if va < GIB then Some(Leaf(va, false, true)) else None
  {
    hide BootTables, Present, Writable, User, Huge, FrameOf, Index4, Index3, Index2, WordAt;
    BootWords(mem, b, Index4(va));
    BootWords(mem, b, Index3(va));
    BootWords(mem, b, Index2(va));
    if va < GIB {
      LowIndices(va);
      ByHuge(va);
    } else {
      HighIndices(va);
    }
  }

  lemma HighIndices(va: nat)
    requires GIB <= va < CANONICAL_LOW
    ensures Index4(va) != 0 || Index3(va) != 0
  {
  }

  /** While the builder runs, its stores into a page land there exactly below 1 GiB. */
  lemma BuilderStoresLandExactly(mem: Memory, m: Memory, b: Context, pool: set<nat>, f: nat)
    requires BootTables(mem, b) && SameOutside(mem, m, pool) && b.pml4 !in pool && b.pdpt !in pool && b.pd !in pool
    requires f % PAGE == 0 && f < PHYSICAL
    ensures Reaches(m, b.pml4, f) <==> f + PAGE <= GIB
  {
    hide Walk, One, Entry, HugeWords, Holds, SameOutside;
    HoldsKept(mem, m, pool, b.pml4, One(0, Entry(b.pdpt, P_W)));
    HoldsKept(mem, m, pool, b.pdpt, One(0, Entry(b.pd, P_W)));
    HoldsKept(mem, m, pool, b.pd, HugeWords());
    if f + PAGE <= GIB {
      forall a | f <= a < f + PAGE ensures LandsAt(m, b.pml4, a) {
        BootWalk(m, b, a);
      }
    } else {
      if f < CANONICAL_LOW {
        BootWalk(m, b, f);
      }
      assert !LandsAt(m, b.pml4, f);
    }
  }
}
