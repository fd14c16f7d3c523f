/** From the boot memory map to the first process: the page allocator is filled, the builder and
    the early heap take their pages, and the process manager starts over the rest. */
module Boot64 {
  import opened MachineWords
  import opened UserLayout64
  import opened Wrappers
  import opened Paging64
  import opened AddressSpace64
  import opened PagingBuilder64
  import opened TableBuilder64
  import opened Processes64
  import opened ProcessFrames64
  import opened ProcessRuns64
  import opened ProcessWindow64
  import opened KernelWindow64
  import Finite
  import Pmm64
  import B = Pmm64Boot

  const HEAP_PAGES: nat := 96

  /** The pages of the tables, those of the early heap, and the allocator that is left. */
  datatype Boot = Boot(tables: seq<nat>, heap: seq<nat>, pmm: Pmm64.State)

  /** The builder takes sixteen pages or boot ends; the heap takes its pages or does without. */
  function BootPages(booted: Pmm64.State): (r: Option<Boot>)
    ensures r.Some? ==> |r.value.tables| == PAGES
  {
    var a := TakeAll(booted, PAGES, []);
    if a.1.None? then None
    else
      var h := TakeAll(a.0, HEAP_PAGES, []);
      Some(Boot(a.1.value, if h.1.None? then [] else h.1.value, h.0))
  }

  ghost function PoolOf(booted: Pmm64.State, boot: Boot): set<nat> {
    Finite.Elements(booted.stack) - Pmm64.Got(boot.tables) - Pmm64.Got(boot.heap)
  }

  function SystemOf(boot: Boot, mem: Memory): System
    requires |boot.tables| == PAGES
  {
    System(true, Some(ContextOf(TablesAt(boot.tables))), mem, boot.pmm, seq(MAX_PROCESSES, _ => EMPTY), 1, false)
  }

  /** A memory map whose regions do not overlap or round over. */
  ghost predicate Sane(regions: seq<B.Region>, kernelEnd: nat) {
    && B.RangesApart(regions, B.AlignUp(kernelEnd)) && 0 < kernelEnd <= U64 - PAGE
    && forall i :: 0 <= i < |regions| ==> B.Words(regions[i]) && !B.RoundsOver(regions[i], B.AlignUp(kernelEnd))
  }

  /** The builder and the heap write below 1 GiB, and later creations can read the tables they
      clone. */
  predicate WithinReach(boot: Boot)
    requires |boot.tables| == PAGES
  {
    && Reached(SourceTables(ContextOf(TablesAt(boot.tables))))
    && forall f :: f in boot.tables + boot.heap ==> f + PAGE <= GIB
  }

  // ----- taking the pages

  lemma LeftOver(q: Pmm64.State, pool: set<nat>, pages: seq<nat>)
    requires Pmm64.Took(q, {}, pool, pages)
    ensures Pmm64.Splits(q, {}, pool - Pmm64.Got(pages))
  {
    hide Pmm64.Got;
    var rest := pool - Pmm64.Got(pages);
    assert Finite.Elements(q.stack) + {} == rest;
    Finite.SubsetCardinality(rest, pool);
  }

  lemma TookWithin(q: Pmm64.State, pool: set<nat>, pages: seq<nat>)
    requires Pmm64.Took(q, {}, pool, pages)
    ensures Pmm64.Got(pages) <= pool
  {
    hide Pmm64.Got;
  }

  /** Boot gets through exactly when there are sixteen pages; what it leaves is free. */
  lemma BootTakes(booted: Pmm64.State)
    requires Pmm64.Splits(booted, {}, Finite.Elements(booted.stack))
    ensures BootPages(booted).Some? <==> |booted.stack| >= PAGES
    ensures BootPages(booted).Some? ==>
      && var boot := BootPages(booted).value;
      && (exists q :: Pmm64.Took(q, {}, Finite.Elements(booted.stack), boot.tables)) && 0 !in boot.tables
      && Pmm64.Splits(boot.pmm, {}, PoolOf(booted, boot)) && Pmm64.Got(boot.heap) !! Pmm64.Got(boot.tables)
  {
    hide Pmm64.Splits, Pmm64.Took, Pmm64.Got, TakeAll, Finite.Elements;
    var pool := Finite.Elements(booted.stack);
    Pmm64.TookNothing(booted, {}, pool);
    TakeAllSplits(booted, {}, pool, PAGES, []);
    var a := TakeAll(booted, PAGES, []);
    if a.1.Some? {
      LeftOver(a.0, pool, a.1.value);
      var rest := pool - Pmm64.Got(a.1.value);
      Pmm64.TookNothing(a.0, {}, rest);
      TakeAllSplits(a.0, {}, rest, HEAP_PAGES, []);
      var h := TakeAll(a.0, HEAP_PAGES, []);
      if h.1.Some? {
        LeftOver(h.0, rest, h.1.value);
        TookWithin(h.0, rest, h.1.value);
      } else {
        Pmm64.GotNothing();
        assert rest - {} == rest;
      }
    }
  }

  // ----- the state handed to the process manager

  lemma TakenAligned(q: Pmm64.State, pool: set<nat>, pages: seq<nat>)
    requires Pmm64.Took(q, {}, pool, pages) && 0 !in pages
    ensures forall i :: 0 <= i < |pages| ==> pages[i] % PAGE == 0 && pages[i] in Pmm64.Got(pages)
    ensures Finite.NoDup(pages)
  {
    forall i | 0 <= i < |pages| ensures pages[i] % PAGE == 0 && pages[i] in Pmm64.Got(pages) {
      assert pages[i] in pages;
      assert pages[i] in Pmm64.Got(pages);
      assert Pmm64.Manageable(q, pages[i]);
    }
  }

  lemma FramesAlignedFrom(pages: seq<nat>)
    requires |pages| == PAGES && forall i :: 0 <= i < |pages| ==> pages[i] % PAGE == 0
    ensures FramesAligned(TablesAt(pages))
  {
  }

  lemma FramesTaken(pages: seq<nat>, f: nat)
    requires |pages| == PAGES && f in FramesIn(TablesAt(pages))
    ensures f in pages
  {
  }

  /** The tables are in memory before the heap writes its own pages. */
  lemma TablesWritten(mem: Memory, q: Pmm64.State, pool: set<nat>, pages: seq<nat>, plan: Plan, image: seq<seq<nat>>,
      rest: set<nat>)
    requires Pmm64.Took(q, {}, pool, pages) && 0 !in pages && |pages| == PAGES && |image| == 2
    requires rest !! Pmm64.Got(pages)
    ensures Intact(WriteAll(mem, pages, Contents(TablesAt(pages), plan, image)), TablesAt(pages), plan, rest)
  {
    hide Pmm64.Splits, Pmm64.Took, Pmm64.Got, Contents, InPlace, FramesAligned, WriteAll, Finite.NoDup, FramesIn,
      TablesAt;
    TakenAligned(q, pool, pages);
    WrittenFrames(mem, pages, Contents(TablesAt(pages), plan, image));
    ContentsInPlace(WriteAll(mem, pages, Contents(TablesAt(pages), plan, image)), pages, plan, image);
    FramesAlignedFrom(pages);
    forall f | f in FramesIn(TablesAt(pages)) ensures f !in rest {
      FramesTaken(pages, f);
      var i :| 0 <= i < |pages| && pages[i] == f;
      assert pages[i] in Pmm64.Got(pages);
    }
  }

  lemma IntactSource(mem: Memory, t: Tables, plan: Plan, pool: set<nat>)
    requires Intact(mem, t, plan, pool) && Reached(SourceTables(ContextOf(t)))
    ensures SourceOk(mem, ContextOf(t), pool)
  {
    hide InPlace, FramesAligned, SoundSource, FrameOf, FramesIn, Reached;
    TableFrames(t);
    BuilderSound(mem, t, plan);
  }

  lemma IntactOver(m: Memory, written: Memory, t: Tables, plan: Plan, a: set<nat>, b: set<nat>)
    requires Intact(m, t, plan, a) && Intact(written, t, plan, b)
    ensures Intact(m, t, plan, b)
  {
    hide InPlace, FramesAligned, FramesIn;
  }

  /** From the boot memory map to the first process: once the builder has its pages, all within
      reach, the process manager starts in a
      state satisfying its invariant, over tables that are as built and with every page that
      neither the tables nor the heap took free; `m` is memory after the heap wrote its pages. */
  lemma Boots(regions: seq<B.Region>, kernelEnd: nat, mem: Memory, m: Memory, plan: Plan, image: seq<seq<nat>>)
    requires Sane(regions, kernelEnd) && |image| == 2 && BootPages(B.Init(regions, kernelEnd)).Some?
    requires var boot := BootPages(B.Init(regions, kernelEnd)).value;
      && WithinReach(boot)
      && SameOutside(WriteAll(mem, boot.tables, Contents(TablesAt(boot.tables), plan, image)), m, Pmm64.Got(boot.heap))
    ensures var booted := B.Init(regions, kernelEnd);
      var boot := BootPages(booted).value;
      && Inv(SystemOf(boot, m), ContextOf(TablesAt(boot.tables)), PoolOf(booted, boot))
      && Intact(m, TablesAt(boot.tables), plan, PoolOf(booted, boot))
  {
    hide B.RangesApart, B.Init, B.RoundsOver, B.AlignUp, Pmm64.Splits, Pmm64.Took, Pmm64.Got, TakeAll, WriteAll,
      Contents, BootPages, InPlace, Inv, TablesAt, FramesAligned, Finite.Elements, Intact, Reached, SourceOk,
      SameOutside, SourceTables;
    var booted := B.Init(regions, kernelEnd);
    B.InitSplits(regions, kernelEnd);
    BootTakes(booted);
    var boot := BootPages(booted).value;
    var pool, taken := PoolOf(booted, boot), Pmm64.Got(boot.tables);
    var q :| Pmm64.Took(q, {}, Finite.Elements(booted.stack), boot.tables);
    var written := WriteAll(mem, boot.tables, Contents(TablesAt(boot.tables), plan, image));
    TablesWritten(mem, q, Finite.Elements(booted.stack), boot.tables, plan, image, Pmm64.Got(boot.heap));
    IntactKept(written, m, TablesAt(boot.tables), plan, Pmm64.Got(boot.heap));
    TablesWritten(mem, q, Finite.Elements(booted.stack), boot.tables, plan, image, pool);
    IntactOver(m, written, TablesAt(boot.tables), plan, Pmm64.Got(boot.heap), pool);
    IntactSource(m, TablesAt(boot.tables), plan, pool);
    InitialInv(SystemOf(boot, m), ContextOf(TablesAt(boot.tables)), pool);
  }

  // ----- which memory maps keep every creation within reach

  lemma {:induction false} TakeAllPops(p: Pmm64.State, n: nat, taken: seq<nat>)
    requires p.ready && n <= |p.stack| && 0 !in p.stack
    ensures TakeAll(p, n, taken).1.Some? && TakeAll(p, n, taken).0 == p.(stack := p.stack[..|p.stack| - n])
    ensures var pages := TakeAll(p, n, taken).1.value;
      && (forall k :: 0 <= k < |taken| ==> pages[k] == taken[k])
      && (forall k :: |taken| <= k < |taken| + n ==> pages[k] == p.stack[|p.stack| - 1 - (k - |taken|)])
    decreases n
  {
    if n > 0 {
      var a := Pmm64.Alloc(p);
      assert a.page in p.stack;
      assert forall f :: f in a.state.stack ==> f in p.stack;
      TakeAllPops(a.state, n - 1, taken + [a.page]);
    }
  }

  const BOOT_PAGES: nat := PAGES + HEAP_PAGES

  lemma StackNonzero(p: Pmm64.State, pool: set<nat>)
    requires Pmm64.Splits(p, {}, pool)
    ensures p.ready && 0 !in p.stack
  {
    forall f | f in p.stack ensures f != 0 {
      assert f in Finite.Elements(p.stack);
    }
  }

  /** The tables and the heap come off the top of the stack. */
  lemma BootPops(booted: Pmm64.State)
    requires Pmm64.Splits(booted, {}, Finite.Elements(booted.stack)) && |booted.stack| >= BOOT_PAGES
    ensures BootPages(booted).Some?
    ensures var n, boot := |booted.stack|, BootPages(booted).value;
      && boot.pmm == booted.(stack := booted.stack[..n - BOOT_PAGES])
      && (forall k :: 0 <= k < PAGES ==> boot.tables[k] == booted.stack[n - 1 - k])
      && |boot.heap| == HEAP_PAGES && forall k :: 0 <= k < HEAP_PAGES ==>
        boot.heap[k] == booted.stack[n - PAGES - 1 - k]
  {
    hide Pmm64.Splits, TakeAll;
    StackNonzero(booted, Finite.Elements(booted.stack));
    TakeAllPops(booted, PAGES, []);
    var a := TakeAll(booted, PAGES, []);
    assert forall f :: f in a.0.stack ==> f in booted.stack;
    TakeAllPops(a.0, HEAP_PAGES, []);
    assert booted.stack[..|booted.stack| - PAGES][..|booted.stack| - BOOT_PAGES] ==
      booted.stack[..|booted.stack| - BOOT_PAGES];
  }

  /** The pages creations may get lie in the window. */
  ghost predicate ClearMap(stack: seq<nat>)
    requires |stack| >= BOOT_PAGES
  {
    var n := |stack| - BOOT_PAGES;
    forall j :: Spare(n) <= j < n ==> Windowed(stack[j])
  }

  /** After boot no run ever strays exactly when, below the pages of the tables and the heap and
      above the spare ones, every tracked page lies in the window. */
  lemma NeverStraysAfterBoot(regions: seq<B.Region>, kernelEnd: nat, mem: Memory, m: Memory, plan: Plan,
      image: seq<seq<nat>>)
    requires Sane(regions, kernelEnd) && |image| == 2 && |B.Init(regions, kernelEnd).stack| >= BOOT_PAGES
    requires BootPages(B.Init(regions, kernelEnd)).Some?
    requires var boot := BootPages(B.Init(regions, kernelEnd)).value;
      && WithinReach(boot)
      && SameOutside(WriteAll(mem, boot.tables, Contents(TablesAt(boot.tables), plan, image)), m, Pmm64.Got(boot.heap))
    ensures var booted := B.Init(regions, kernelEnd);
      var boot := BootPages(booted).value;
      var s, ctx, pool := SystemOf(boot, m), ContextOf(TablesAt(boot.tables)), PoolOf(booted, boot);
      && Inv(s, ctx, pool)
      && ((forall ops :: AllStaged(ops) ==> !Run(s, ctx, pool, ops).strayed) <==> ClearMap(booted.stack))
  {
    hide B.RangesApart, B.Init, B.RoundsOver, B.AlignUp, Pmm64.Splits, Pmm64.Got, TakeAll, WriteAll, Contents,
      BootPages, Inv, TablesAt, Finite.Elements, Intact, WithinReach, SameOutside, Run, Spare, Windowed, AllStaged;
    var booted := B.Init(regions, kernelEnd);
    B.InitSplits(regions, kernelEnd);
    BootPops(booted);
    BootTakes(booted);
    Boots(regions, kernelEnd, mem, m, plan, image);
    var boot := BootPages(booted).value;
    Pmm64.FreeCount(boot.pmm, {}, PoolOf(booted, boot));
    NeverStraysExactly(SystemOf(boot, m), ContextOf(TablesAt(boot.tables)), PoolOf(booted, boot));
  }

  // ----- maps with one region

  /** With one region the stack lists its pages upwards, as many as are tracked. */
  lemma OneRegionStack(region: B.Region, kernelEnd: nat)
    requires Sane([region], kernelEnd)
    ensures var stack, start, end := B.Init([region], kernelEnd).stack, B.Range(region, B.AlignUp(kernelEnd)).0,
      B.Range(region, B.AlignUp(kernelEnd)).1;
      && start % PAGE == 0
      && |stack| == (if end < start then 0 else if (end - start) / PAGE > Pmm64.MAX_TRACKED then Pmm64.MAX_TRACKED
        else (end - start) / PAGE)
      && forall j :: 0 <= j < |stack| ==> stack[j] == start + j * PAGE
  {
    hide B.RangesApart, B.Range, B.RoundsOver, B.AlignUp, B.RangePages, Pmm64.Splits, B.Init;
    B.InitSplits([region], kernelEnd);
    B.RangeAligned(region, B.AlignUp(kernelEnd));
    var g := B.Range(region, B.AlignUp(kernelEnd));
    B.RangePagesAt(g.0, g.1);
    assert [region][1..] == [];
    assert B.AllPages([region], B.AlignUp(kernelEnd)) == B.RangePages(g.0, g.1) + [];
  }

  /** Pages `low` to `top` are all in the window exactly when they end by 1 GiB and pass the code
      slot on one side. */
  lemma RunWindowedExactly(stack: seq<nat>, start: nat, from: nat, n: nat)
    requires start % PAGE == 0 && from < n <= |stack| && forall j :: 0 <= j < n ==> stack[j] == start + j * PAGE
    ensures (forall j :: from <= j < n ==> Windowed(stack[j])) <==>
      start + n * PAGE <= GIB && (start + n * PAGE <= CODE_BASE || CODE_SLOT_END <= start + from * PAGE)
  {
    var low, top := start + from * PAGE, start + n * PAGE;
    assert stack[n - 1] == top - PAGE && stack[from] == low;
    if low < CODE_BASE < top {
      var j := (CODE_BASE - start) / PAGE;
      assert start + j * PAGE == CODE_BASE by { SlotPage(start); }
      assert from <= j < n;
      assert !Windowed(stack[j]);
    }
  }

  lemma SlotPage(start: nat)
    requires start % PAGE == 0 && start <= CODE_BASE
    ensures start + (CODE_BASE - start) / PAGE * PAGE == CODE_BASE
  {
  }

  /** For a map with one region: no run strays exactly when fewer than eleven pages are left for
      processes, or the pages creations can get end by 1 GiB and pass the code slot. */
  lemma OneRegionClearExactly(region: B.Region, kernelEnd: nat)
    requires Sane([region], kernelEnd) && |B.Init([region], kernelEnd).stack| >= BOOT_PAGES
    ensures var stack, start := B.Init([region], kernelEnd).stack, B.Range(region, B.AlignUp(kernelEnd)).0;
      var n := |stack| - BOOT_PAGES;
      ClearMap(stack) <==>
        n < 11 || (start + n * PAGE <= GIB
          && (start + n * PAGE <= CODE_BASE || CODE_SLOT_END <= start + Spare(n) * PAGE))
  {
    hide B.Init, B.Range, B.AlignUp, Sane, Windowed;
    OneRegionStack(region, kernelEnd);
    var stack, start := B.Init([region], kernelEnd).stack, B.Range(region, B.AlignUp(kernelEnd)).0;
    var n := |stack| - BOOT_PAGES;
    SpareBelow(n);
    if n >= 11 {
      RunWindowedExactly(stack, start, Spare(n), n);
    }
  }

  lemma SpareBelow(n: nat)
    ensures n < 11 ==> Spare(n) == n
    ensures n >= 11 ==> Spare(n) < n
  {
  }

  lemma OneRegionSane(length: nat)
    requires 0x10_0000 < length < 0x1_0000_0000
    ensures var region := B.Region(0x10_0000, length, true);
      && Sane([region], 0x20_0000)
      && B.Range(region, B.AlignUp(0x20_0000)) == (0x20_0000, B.AlignDown(0x10_0000 + length))
  {
    var region := B.Region(0x10_0000, length, true);
    assert B.AlignUp(0x20_0000) == 0x20_0000;
    assert B.AlignUp(0x10_0000) == 0x10_0000;
  }

  /** With 16 MiB above the first MiB the system boots and no run ever strays. */
  lemma LargeMapClear()
    ensures var booted := B.Init([B.Region(0x10_0000, 0x100_0000, true)], 0x20_0000);
      && |booted.stack| >= BOOT_PAGES && BootPages(booted).Some?
      && WithinReach(BootPages(booted).value) && ClearMap(booted.stack)
  {
    hide B.Init, B.Range, B.AlignUp, Sane, Pmm64.Splits, BootPages;
    var region := B.Region(0x10_0000, 0x100_0000, true);
    OneRegionSane(0x100_0000);
    OneRegionStack(region, 0x20_0000);
    OneRegionClearExactly(region, 0x20_0000);
    var booted := B.Init([region], 0x20_0000);
    SaneSplits([region], 0x20_0000);
    BootPops(booted);
  }

  lemma SaneSplits(regions: seq<B.Region>, kernelEnd: nat)
    requires Sane(regions, kernelEnd)
    ensures Pmm64.Splits(B.Init(regions, kernelEnd), {}, Finite.Elements(B.Init(regions, kernelEnd).stack))
  {
    hide B.Init, Pmm64.Splits;
    B.InitSplits(regions, kernelEnd);
  }

  /** With 7 MiB it boots too, but some run of creations gets a page of the code slot. */
  lemma SmallMapStrays(mem: Memory, m: Memory, plan: Plan, image: seq<seq<nat>>)
    requires |image| == 2
    ensures var booted := B.Init([B.Region(0x10_0000, 0x70_0000, true)], 0x20_0000);
      && BootPages(booted).Some?
      && var boot := BootPages(booted).value;
      var s, ctx, pool := SystemOf(boot, m), ContextOf(TablesAt(boot.tables)), PoolOf(booted, boot);
      SameOutside(WriteAll(mem, boot.tables, Contents(TablesAt(boot.tables), plan, image)), m, Pmm64.Got(boot.heap)) ==>
        Inv(s, ctx, pool) && exists ops :: AllStaged(ops) && Run(s, ctx, pool, ops).strayed
  {
    hide B.Init, B.Range, B.AlignUp, Sane, Pmm64.Splits, BootPages, Inv, Run, AllStaged, SameOutside, WriteAll,
      Contents, Pmm64.Got;
    var region := B.Region(0x10_0000, 0x70_0000, true);
    OneRegionSane(0x70_0000);
    OneRegionStack(region, 0x20_0000);
    OneRegionClearExactly(region, 0x20_0000);
    var booted := B.Init([region], 0x20_0000);
    SaneSplits([region], 0x20_0000);
    BootPops(booted);
    var boot := BootPages(booted).value;
    if SameOutside(WriteAll(mem, boot.tables, Contents(TablesAt(boot.tables), plan, image)), m, Pmm64.Got(boot.heap)) {
      NeverStraysAfterBoot([region], 0x20_0000, mem, m, plan, image);
    }
  }
}
