/** The x86_64 process manager as it runs: the process table, the page allocator and physical
    memory updated in place, each operation refining its function of the whole state. */
module ProcessManager64 {
  import opened MachineWords
  import opened UserLayout64
  import opened Wrappers
  import opened Paging64
  import opened AddressSpace64
  import opened SpaceInstall64
  import opened TableWiring64
  import opened Processes64
  import opened ProcessFrames64
  import opened ProcessCreate64
  import opened ProcessRuns64
  import opened ProcessPids64
  import opened PageStack64
  import opened ProcessSelect64
  import Pmm64
  import RR = RoundRobin

  class ProcessManager {
    var ready: bool
    var paging: Option<Context>
    var mem: Memory
    const stack: PageStack
    const table: array<Process>
    var nextPid: nat
    var strayed: bool
    var kernelCursor: nat
    var userCursor: nat
    ghost var pool: set<nat>

    ghost predicate Whole() reads this, stack {
      table.Length == MAX_PROCESSES && stack.Valid()
    }

    ghost function Snapshot(): System
      requires Whole()
      reads this, stack, stack.pages, table
    {
      System(ready, paging, mem, stack.Snapshot(), table[..], nextPid, strayed)
    }

    ghost predicate Valid() reads this, stack, stack.pages, table {
      Whole() && paging.Some? && Inv(Snapshot(), paging.value, pool)
    }

    /** `x86_64_process_initialize` over a booted kernel. */
    constructor (memory: Memory, ctx: Context, pages: PageStack, ghost managed: set<nat>)
      requires pages.Valid() && Pmm64.Splits(pages.Snapshot(), {}, managed) && SourceOk(memory, ctx, managed)
      ensures Valid() && fresh(table) && stack == pages
      ensures Snapshot() == System(true, Some(ctx), memory, pages.Snapshot(), seq(MAX_PROCESSES, _ => EMPTY), 1, false)
      ensures pool == managed && kernelCursor == userCursor == 0
    {
      ready, paging, mem, stack, nextPid, strayed := true, Some(ctx), memory, pages, 1, false;
      kernelCursor, userCursor := 0, 0;
      table := new Process[MAX_PROCESSES](_ => EMPTY);
      pool := managed;
      new;
      assert table[..] == seq(MAX_PROCESSES, _ => EMPTY);
      InitialInv(Snapshot(), ctx, managed);
    }

    // ----- the page allocator

    method TakePages(n: nat) returns (pages: seq<nat>)
      requires Whole()
      modifies stack`count
      ensures Whole() && (stack.Snapshot(), pages) == Pmm64.AllocMany(old(stack.Snapshot()), n)
    {
      hide Pmm64.Alloc;
      pages := [];
      ghost var start := stack.Snapshot();
      assert [] + Pmm64.AllocMany(start, n).1 == Pmm64.AllocMany(start, n).1;
      for k := 0 to n
        invariant Whole() && |pages| == k
        invariant var rest := Pmm64.AllocMany(stack.Snapshot(), n - k);
          Pmm64.AllocMany(start, n) == (rest.0, pages + rest.1)
      {
        ghost var before := stack.Snapshot();
        var page := stack.AllocPage();
        assert Pmm64.AllocMany(before, n - k).1 == [page] + Pmm64.AllocMany(stack.Snapshot(), n - k - 1).1;
        assert pages + ([page] + Pmm64.AllocMany(stack.Snapshot(), n - k - 1).1)
            == pages + [page] + Pmm64.AllocMany(stack.Snapshot(), n - k - 1).1;
        pages := pages + [page];
      }
      assert pages + [] == pages;
    }

    method FreePages(pages: seq<nat>)
      requires Whole()
      modifies stack`count, stack.pages
      ensures Whole() && stack.Snapshot() == Pmm64.FreeAll(old(stack.Snapshot()), pages)
    {
      hide Pmm64.Free;
      ghost var start := stack.Snapshot();
      for k := 0 to |pages|
        invariant Whole() && Pmm64.FreeAll(stack.Snapshot(), pages[k..]) == Pmm64.FreeAll(start, pages)
      {
        assert pages[k..][1..] == pages[k + 1..];
        if pages[k] != 0 {
          var _ := stack.FreePage(pages[k]);
        } else {
          Pmm64.FreeZero(stack.Snapshot());
        }
      }
    }

    /** `release_address_space`. */
    method ReleaseAddressSpace(i: nat)
      requires Whole() && i < table.Length
      modifies stack`count, stack.pages, table
      ensures Whole() && Snapshot() == ReleaseSpace(old(Snapshot()), i)
    {
      hide Pmm64.FreeAll, FramesOf;
      FreePages(FramesOf(table[i].space));
      table[i] := table[i].(space := NO_SPACE, flags := NO_FLAGS, count := 0, kernelReady := false,
        tablesReady := false);
    }

    /** `release_kernel_stack`. */
    method ReleaseKernelStack(i: nat)
      requires Whole() && i < table.Length
      modifies stack`count, stack.pages, table
      ensures Whole() && Snapshot() == ReleaseStack(old(Snapshot()), i)
    {
      hide Pmm64.Free;
      if table[i].kernelStack != 0 {
        var _ := stack.FreePage(table[i].kernelStack);
      } else {
        Pmm64.FreeZero(stack.Snapshot());
      }
      table[i] := table[i].(kernelStack := 0);
    }
  
    // ----- page tables

    /** One 64-bit store into a table. */
    method StoreWord(t: nat, i: nat, w: nat)
      requires i < WORDS
      modifies this`mem
      ensures mem == Put(old(mem), t, i, w)
    {
      if IsTable(mem, t) {
        mem := PutWord(mem, t, i, w);
      }
    }

    /** Copies one table over another, word by word. */
    method CopyTable(dest: nat, src: nat)
      requires dest != src && IsTable(mem, dest) && IsTable(mem, src)
      modifies this`mem
      ensures mem == old(mem)[dest := Table(WordsOf(old(mem), src))]
    {
      ghost var from, was := mem[src].words, mem[dest].words;
      assert from[..0] + was[0..] == was;
      assert mem == mem[dest := Table(was)];
      for k := 0 to WORDS
        invariant mem == old(mem)[dest := Table(from[..k] + was[k..])]
      {
        var w := WordAt(mem, src, k);
        assert (from[..k] + was[k..])[k := w] == from[..k + 1] + was[k + 1..];
        StoreWord(dest, k, w);
      }
      assert from[..WORDS] + was[WORDS..] == from;
    }

    /** `clone_kernel_mappings` once a paging context is set. */
    method CloneKernelMappings(ctx: Context, sp: Space)
      requires TablesDiffer(sp) && AllTables(mem, sp)
      requires IsTable(mem, ctx.pml4) && IsTable(mem, ctx.pdpt) && IsTable(mem, ctx.pd)
      requires forall t :: t in [ctx.pml4, ctx.pdpt, ctx.pd] ==> t !in [sp.cr3, sp.pdpt, sp.codePd]
      modifies this`mem
      ensures mem == Cloned(old(mem), ctx, sp)
    {
      hide Entry, Blank;
      assert ctx.pml4 in [ctx.pml4, ctx.pdpt, ctx.pd] && ctx.pdpt in [ctx.pml4, ctx.pdpt, ctx.pd]
        && ctx.pd in [ctx.pml4, ctx.pdpt, ctx.pd];
      CopyTable(sp.cr3, ctx.pml4);
      CopyTable(sp.pdpt, ctx.pdpt);
      CopyTable(sp.codePd, ctx.pd);
      StoreWord(sp.cr3, 0, Entry(sp.pdpt, P_W_U));
    }

    /** The table writes of `build_user_page_tables`. */
    method WireTables(sp: Space, flags: seq<nat>, count: nat)
      requires |sp.code| == MAX_PAGES == |flags| && count <= MAX_PAGES
      modifies this`mem
      ensures mem == Wired(old(mem), sp, flags, count)
    {
      hide Entry, Put;
      StoreWord(sp.cr3, 0, Entry(sp.pdpt, P_W_U));
      StoreWord(sp.pdpt, 0, Entry(sp.codePd, P_W_U));
      StoreWord(sp.pdpt, 1, Entry(sp.stackPd, P_W_U));
      StoreWord(sp.codePd, 2, Entry(sp.codePt, P_W_U));
      StoreWord(sp.stackPd, 511, Entry(sp.stackPt, P_W_U));
      ghost var m5 := mem;
      for i := 0 to count
        invariant mem == PutCode(m5, sp, flags, i)
      {
        StoreWord(sp.codePt, i, Entry(sp.code[i], flags[i]));
      }
      StoreWord(sp.stackPt, 511, Entry(sp.stack, P_W_U));
    }

    /** `validate_user_page_tables`: the code pages are checked in a loop. */
    method ValidateUserPageTables(ctx: Context, sp: Space, flags: seq<nat>, count: nat) returns (ok: bool)
      requires |sp.code| == MAX_PAGES == |flags| && count <= MAX_PAGES
      ensures ok == UserTablesValid(mem, ctx, sp, flags, count)
    {
      hide KernelMappingsValid, CodePageValid, PointsUser, WordAt;
      var codePagesOk := count != 0;
      for i := 0 to count
        invariant codePagesOk <==> count != 0 && forall j :: 0 <= j < i ==> CodePageValid(mem, sp, flags, j)
      {
        if !CodePageValid(mem, sp, flags, i) {
          codePagesOk := false;
        }
      }
      ok := codePagesOk
        && PointsUser(WordAt(mem, sp.cr3, 0), sp.pdpt)
        && PointsUser(WordAt(mem, sp.pdpt, 0), sp.codePd)
        && PointsUser(WordAt(mem, sp.pdpt, 1), sp.stackPd)
        && PointsUser(WordAt(mem, sp.codePd, 2), sp.codePt)
        && PointsUser(WordAt(mem, sp.stackPd, 511), sp.stackPt)
        && PointsUser(WordAt(mem, sp.stackPt, 511), sp.stack)
        && KernelMappingsValid(mem, ctx, sp);
    }

    /** `build_user_page_tables`: wire, then record both checks. */
    method BuildUserPageTables(i: nat, ctx: Context)
      requires Whole() && i < table.Length && table[i].count <= MAX_PAGES
      requires |table[i].space.code| == MAX_PAGES == |table[i].flags|
      modifies this`mem, table
      ensures Whole() && mem == Wired(old(mem), old(table[i]).space, old(table[i]).flags, old(table[i]).count)
      ensures table[..] == old(table[..])[i := old(table[i]).(
        kernelReady := KernelMappingsValid(mem, ctx, old(table[i]).space),
        tablesReady := UserTablesValid(mem, ctx, old(table[i]).space, old(table[i]).flags, old(table[i]).count))]
    {
      hide Wired, KernelMappingsValid, UserTablesValid;
      var p := table[i];
      WireTables(p.space, p.flags, p.count);
      var tablesReady := ValidateUserPageTables(ctx, p.space, p.flags, p.count);
      table[i] := p.(kernelReady := KernelMappingsValid(mem, ctx, p.space), tablesReady := tablesReady);
    }

    /** Clears the eleven pages of a new space. */
    method ClearSpace(sp: Space)
      requires |sp.code| == MAX_PAGES
      modifies this`mem
      ensures mem == FilledPages(ClearedTables(old(mem), sp), sp, BlankPages())
    {
      hide Blank, ZeroPage;
      mem := mem[sp.cr3 := Table(Blank())][sp.pdpt := Table(Blank())][sp.codePd := Table(Blank())];
      mem := mem[sp.stackPd := Table(Blank())][sp.codePt := Table(Blank())][sp.stackPt := Table(Blank())];
      mem := mem[sp.code[0] := Data(ZeroPage())][sp.code[1] := Data(ZeroPage())];
      mem := mem[sp.code[2] := Data(ZeroPage())][sp.code[3] := Data(ZeroPage())][sp.stack := Data(ZeroPage())];
    }
  
    // ----- acquiring the frames of a process

    /** `allocate_address_space`. */
    method AllocateAddressSpace(i: nat) returns (ok: bool)
      requires Valid() && i < table.Length && table[i] == EMPTY
      modifies this`mem, this`strayed, stack`count, stack.pages, table
      ensures Whole() && Shaped(old(Snapshot()))
      ensures (Snapshot(), ok) == AllocateSpace(old(Snapshot()), i)
    {
      hide Inv, Shaped, Installed, KernelMappingsValid, UserTablesValid, Wired, Cloned, FilledPages, ClearedTables,
        SpaceOf, FramesOf, Separate, IsTable, SourceOk, TablesDiffer, AllTables, Pmm64.AllocMany, Pmm64.FreeAll,
        ZeroPage, Reached;
      ghost var s := Snapshot();
      var ctx := paging.value;
      InvShaped(s, ctx, pool);
      var pages := TakePages(11);
      var sp := SpaceOf(pages);
      SpaceOfFrames(pages);
      table[i] := table[i].(space := sp);
      assert table[..] == s.procs[i := s.procs[i].(space := sp)];
      if 0 in pages {
        ReleaseAddressSpace(i);
        return false;
      }
      if !Reached(pages) {
        strayed := true;
        return false;
      }
      PagesSeparate(s, ctx, pool);
      ReadyToClone(s.mem, ctx, sp, BlankPages());
      ClearSpace(sp);
      table[i] := table[i].(flags := [P_U, 0, 0, 0], count := 1);
      CloneKernelMappings(ctx, sp);
      BuildUserPageTables(i, ctx);
      FirstWiring(s.mem, ctx, sp, [P_U, 0, 0, 0], 1, BlankPages());
      ok := table[i].kernelReady && table[i].tablesReady;
      assert table[..] == AllocateSpace(s, i).0.procs;
    }

    /** `allocate_kernel_stack`. */
    method AllocateKernelStack(i: nat) returns (ok: bool)
      requires Whole() && i < table.Length
      modifies this`mem, this`strayed, stack`count, table
      ensures Whole()
      ensures var k := Pmm64.Alloc(old(stack.Snapshot()));
        && ok == (k.page != 0 && Windowed(k.page))
        && Snapshot() == if k.page == 0 then old(Snapshot()).(pmm := k.state)
             else if !Windowed(k.page) then old(Snapshot()).(pmm := k.state, strayed := true)
             else old(Snapshot()).(pmm := k.state, mem := old(mem)[k.page := Data(ZeroPage())],
               procs := old(table[..])[i := old(table[i]).(kernelStack := k.page)])
    {
      hide Pmm64.Alloc, ZeroPage, Windowed;
      var page := stack.AllocPage();
      if page == 0 {
        return false;
      }
      if !Windowed(page) {
        strayed := true;
        return false;
      }
      mem := mem[page := Data(ZeroPage())];
      table[i] := table[i].(kernelStack := page);
      return true;
    }

    /** Address space and kernel stack, or neither; after a stray store nothing more is done. */
    method AcquireFrames(i: nat) returns (ok: bool)
      requires Valid() && i < table.Length && table[i] == EMPTY
      modifies this`mem, this`strayed, stack`count, stack.pages, table
      ensures Whole() && Shaped(old(Snapshot()))
      ensures (Snapshot(), ok) == Acquire(old(Snapshot()), i)
    {
      hide Inv, Shaped, AllocateSpace, ZeroPage, Pmm64.Alloc, Pmm64.FreeAll, FramesOf, Windowed;
      ghost var s := Snapshot();
      InvPlain(s, paging.value, pool);
      ok := AllocateAddressSpace(i);
      if !ok {
        return false;
      }
      ReadySpace(s, i);
      ok := AllocateKernelStack(i);
      if !ok && !strayed {
        ReleaseAddressSpace(i);
      }
    }

    // ----- the process table

    /** `find_unused_process`. */
    method FindUnusedProcess() returns (r: Option<nat>)
      ensures r == FindUnused(table[..])
    {
      for i := 0 to table.Length
        invariant FindUnused(table[..]) == FindUnused(table[..], i)
      {
        if table[i].life == Unused {
          return Some(i);
        }
      }
      return None;
    }

    /** `find_process_by_pid`. */
    method FindProcessByPid(pid: nat) returns (r: Option<nat>)
      ensures r == FindPid(table[..], pid)
    {
      for i := 0 to table.Length
        invariant FindPid(table[..], pid) == FindPid(table[..], pid, i)
      {
        if table[i].life != Unused && table[i].pid == pid {
          return Some(i);
        }
      }
      return None;
    }

    /** `x86_64_process_create`. */
    method Create(entry: nat) returns (pid: nat)
      requires Valid()
      modifies this, stack`count, stack.pages, table
      ensures Whole() && (strayed || Valid()) && pool == old(pool) && paging == old(paging)
      ensures Shaped(old(Snapshot())) && (Snapshot(), pid) == CreateKernel(old(Snapshot()), entry)
    {
      hide Inv, Shaped, Acquire, FindUnused, Strays;
      ghost var s, ctx := Snapshot(), paging.value;
      InvShaped(s, ctx, pool);
      InvPlain(s, ctx, pool);
      CreateKernelExact(s, ctx, pool, entry);
      if !ready || entry == 0 {
        return 0;
      }
      var slot := FindUnusedProcess();
      if slot.None? {
        return 0;
      }
      var i := slot.value;
      UnusedEmpty(s, ctx, pool);
      var ok := AcquireFrames(i);
      if !ok {
        return 0;
      }
      pid := nextPid;
      table[i] := table[i].(life := Ready, mode := Kernel, pid := nextPid, entry := entry, userEntry := 0,
        exitCode := 0);
      nextPid := (nextPid + 1) % U32;
      assert table[..] == CreateKernel(s, entry).0.procs;
    }

    /** `x86_64_process_mark_user_exited`. */
    method MarkUserExited(pid: nat, code: nat) returns (ok: bool)
      requires Valid()
      modifies table
      ensures Valid() && Snapshot() == MarkExited(old(Snapshot()), pid, code)
      ensures var slot := FindPid(old(table[..]), pid);
        ok <==> slot.Some? && old(table[..])[slot.value].mode == UserMode
    {
      hide Inv, FindPid;
      ghost var s, ctx := Snapshot(), paging.value;
      StepKeeps(s, ctx, pool, Exit(pid, code));
      var slot := FindProcessByPid(pid);
      if slot.None? || table[slot.value].mode != UserMode {
        return false;
      }
      table[slot.value] := table[slot.value].(life := Exited, exitCode := code);
      return true;
    }

    /** `x86_64_process_reap_user`. */
    method ReapUser(pid: nat) returns (ok: bool)
      requires Valid()
      modifies stack`count, stack.pages, table
      ensures Valid() && Snapshot() == Reap(old(Snapshot()), pid)
      ensures var slot := FindPid(old(table[..]), pid); ok <==> slot.Some? && Finished(old(table[..])[slot.value])
    {
      hide Inv, FindPid, ReleaseSpace, ReleaseStack;
      ghost var s, ctx := Snapshot(), paging.value;
      StepKeeps(s, ctx, pool, ReapPid(pid));
      var slot := FindProcessByPid(pid);
      if slot.None? || !Reapable(table[slot.value]) {
        return false;
      }
      ReleaseAddressSpace(slot.value);
      ReleaseKernelStack(slot.value);
      table[slot.value] := EMPTY;
      return true;
    }

    /** `x86_64_process_reap_exited_user_processes`. */
    method ReapExitedUserProcesses() returns (reaped: nat)
      requires Valid()
      modifies stack`count, stack.pages, table
      ensures Valid() && (Snapshot(), reaped) == ReapFrom(old(Snapshot()), 0)
    {
      hide Inv, FindPid, Reap;
      reaped := 0;
      ghost var s := Snapshot();
      for i := 0 to MAX_PROCESSES
        invariant Valid()
        invariant var rest := ReapFrom(Snapshot(), i); ReapFrom(s, 0) == (rest.0, reaped + rest.1)
      {
        if Reapable(table[i]) {
          var ok := ReapUser(table[i].pid);
          if ok {
            reaped := reaped + 1;
          }
        }
      }
    }

    // ----- selection

    /** The scan shared by `find_next_ready_process` and `find_next_ready_user_process`. */
    method FindEligible(cursor: nat, user: bool) returns (r: Option<nat>)
      requires table.Length == MAX_PROCESSES && cursor < MAX_PROCESSES
      ensures r == RR.Select(EligibleBits(table[..], user), cursor)
    {
      hide Eligible;
      ghost var bits := EligibleBits(table[..], user);
      for scanned := 0 to MAX_PROCESSES
        invariant RR.Select(bits, cursor) == RR.SelectFrom(bits, cursor, scanned)
      {
        var index := (cursor + scanned) % MAX_PROCESSES;
        RR.AtIsModulo(cursor, scanned, MAX_PROCESSES);
        if Eligible(table[index], user) {
          return Some(index);
        }
      }
      return None;
    }

    /** `find_next_ready_user_process`: the cursor moves past the process selected. */
    method FindNextReadyUser() returns (r: Option<nat>)
      requires table.Length == MAX_PROCESSES && userCursor < MAX_PROCESSES
      modifies this`userCursor
      ensures userCursor < MAX_PROCESSES && r == RR.Select(EligibleBits(table[..], true), old(userCursor))
      ensures r.Some? ==>
        r.value < MAX_PROCESSES && Eligible(table[r.value], true) && userCursor == RR.Next(r.value, MAX_PROCESSES)
      ensures r.None? ==> userCursor == old(userCursor)
    {
      hide Eligible;
      r := FindEligible(userCursor, true);
      RR.SelectsReady(EligibleBits(table[..], true), userCursor, 0);
      if r.Some? {
        userCursor := (r.value + 1) % MAX_PROCESSES;
      }
    }

    /** `x86_64_process_run_next_ready`: the selected kernel process runs to its end on its
        kernel stack page, leaving `left` there. */
    method RunNextReady(left: seq<nat>) returns (ran: bool)
      requires Valid() && kernelCursor < MAX_PROCESSES && |left| == PAGE
      modifies this`kernelCursor, this`mem, table
      ensures Valid() && kernelCursor < MAX_PROCESSES
      ensures match RR.Select(EligibleBits(old(table[..]), false), old(kernelCursor))
        case None => !ran && Snapshot() == old(Snapshot()) && kernelCursor == old(kernelCursor)
        case Some(i) =>
          && i < MAX_PROCESSES && Snapshot() == RunSlot(old(Snapshot()), i, left)
          && kernelCursor == RR.Next(i, MAX_PROCESSES)
    {
      hide Inv;
      ghost var s, ctx := Snapshot(), paging.value;
      var r := FindEligible(kernelCursor, false);
      RR.SelectsReady(EligibleBits(table[..], false), kernelCursor, 0);
      if r.None? {
        return false;
      }
      var i := r.value;
      StepKeeps(s, ctx, pool, RunKernel(i, left));
      kernelCursor := (i + 1) % MAX_PROCESSES;
      var p := table[i];
      table[i] := p.(life := Running);
      if p.kernelStack == 0 || p.space.cr3 == 0 || !p.kernelReady {
        table[i] := p.(life := Failed);
        assert table[..] == s.procs[i := p.(life := Failed)];
        return false;
      }
      mem := mem[p.kernelStack := Data(left)];
      table[i] := p.(life := Exited, exitCode := 0);
      assert table[..] == s.procs[i := p.(life := Exited, exitCode := 0)];
      return true;
    }

    // ----- user images

    /** One page of the image: cleared, then the staged bytes copied over it. */
    method LoadPage(frame: nat, m: Image, i: nat)
      requires |m.staged| == IMAGE_MAX && m.bytes <= IMAGE_MAX && i < m.count <= MAX_PAGES
      modifies this`mem
      ensures mem == old(mem)[frame := Data(PageImage(m, i))]
    {
      var offset := i * PAGE;
      var remaining := if offset < m.bytes then m.bytes - offset else 0;
      var size := if remaining > PAGE then PAGE else remaining;
      var bytes := ZeroPage();
      for j := 0 to size
        invariant |bytes| == PAGE
        invariant forall k :: 0 <= k < PAGE ==> bytes[k] == if k < j then m.staged[offset + k] else 0
      {
        bytes := WithWord(bytes, j, m.staged[offset + j]);
      }
      assert bytes == PageImage(m, i);
      mem := mem[frame := Data(bytes)];
    }

    method LoadPages(code: seq<nat>, m: Image)
      requires |m.staged| == IMAGE_MAX && m.bytes <= IMAGE_MAX && m.count <= MAX_PAGES == |code|
      requires forall j, k :: 0 <= j < k < MAX_PAGES ==> code[j] != code[k]
      requires forall k :: 0 <= k < MAX_PAGES ==> code[k] in mem && mem[code[k]] == Data(ZeroPage())
      modifies this`mem
      ensures mem.Keys == old(mem).Keys && forall f :: f in old(mem) && f !in code ==> mem[f] == old(mem)[f]
      ensures forall k :: 0 <= k < MAX_PAGES ==> code[k] in mem && mem[code[k]] == Data(PageImage(m, k))
    {
      hide PageImage, ZeroPage;
      for i := 0 to m.count
        invariant mem.Keys == old(mem).Keys && forall f :: f in old(mem) && f !in code ==> mem[f] == old(mem)[f]
        invariant forall k :: 0 <= k < MAX_PAGES ==>
          code[k] in mem && mem[code[k]] == Data(if k < i then PageImage(m, k) else ZeroPage())
      {
        LoadPage(code[i], m, i);
      }
      forall k | m.count <= k < MAX_PAGES ensures PageImage(m, k) == ZeroPage() {
        BeyondImage(m, k);
      }
    }

    /** Loads an image into the frames of slot `i` and wires them. */
    method WireUserSlot(i: nat, m: Image)
      requires Whole() && i < table.Length && paging.Some? && AcceptableImage(m) && |m.staged| == IMAGE_MAX
      requires Fillable(mem, paging.value, table[i].space)
      modifies this`mem, this`nextPid, table
      ensures Whole() && Snapshot() == WireUser(old(Snapshot()), i, m)
    {
      hide Fillable, CodeFlagsOf, PageImage, Installed, Wired, KernelMappingsValid, UserTablesValid, ZeroPage, PagesOf;
      ghost var t := Snapshot();
      var sp, ctx := table[i].space, paging.value;
      FillableParts(mem, ctx, sp);
      FlagsSize(m);
      table[i] := table[i].(life := Ready, mode := UserMode, pid := nextPid, entry := 0, userEntry := m.entry,
        exitCode := 0,
                            flags := CodeFlagsOf(m), count := m.count);
      nextPid := (nextPid + 1) % U32;
      LoadPages(sp.code, m);
      FillableWired(t.mem, mem, ctx, sp, m);
      BuildUserPageTables(i, ctx);
      assert table[..] == WireUser(t, i, m).procs;
    }

    /** The slot filled, or its frames given back. */
    method FillUserSlot(i: nat, m: Image) returns (pid: nat)
      requires Whole() && i < table.Length && paging.Some? && AcceptableImage(m) && |m.staged| == IMAGE_MAX
      requires Fillable(mem, paging.value, table[i].space)
      modifies this`mem, this`nextPid, stack`count, stack.pages, table
      ensures Whole() && (Snapshot(), pid) == FillUser(old(Snapshot()), i, m)
    {
      hide Fillable, WireUser, ReleaseSpace, ReleaseStack;
      pid := nextPid;
      WireUserSlot(i, m);
      if !table[i].tablesReady {
        ReleaseKernelStack(i);
        ReleaseAddressSpace(i);
        pid := 0;
      }
    }

    /** `x86_64_process_create_user_image`. */
    method CreateUserImage(m: Image) returns (pid: nat)
      requires Valid() && |m.staged| == IMAGE_MAX
      modifies this, stack`count, stack.pages, table
      ensures Whole() && (strayed || Valid()) && pool == old(pool) && paging == old(paging)
      ensures Shaped(old(Snapshot())) && (Snapshot(), pid) == CreateUser(old(Snapshot()), m)
    {
      hide Inv, Shaped, Acquire, FindUnused, FillUser, Fillable, AcceptableImage, Strays;
      ghost var s, ctx := Snapshot(), paging.value;
      InvShaped(s, ctx, pool);
      InvPlain(s, ctx, pool);
      CreateUserExact(s, ctx, pool, m);
      if !ready || !AcceptableImage(m) {
        return 0;
      }
      var slot := FindUnusedProcess();
      if slot.None? {
        return 0;
      }
      UnusedEmpty(s, ctx, pool);
      var ok := AcquireFrames(slot.value);
      if !ok {
        return 0;
      }
      UserSpaceReady(s, ctx, pool, slot.value);
      pid := FillUserSlot(slot.value, m);
    }
  }

  /** A built space whose code and stack pages are still zero. */
  ghost predicate Fillable(mem: Memory, ctx: Context, sp: Space) {
    && |sp.code| == MAX_PAGES && Separate(ctx, sp) && Built(mem, ctx, sp, [P_U, 0, 0, 0], 1)
    && IsTable(mem, ctx.pml4) && IsTable(mem, ctx.pdpt) && IsTable(mem, ctx.pd)
    && (forall k :: 0 <= k < MAX_PAGES ==> sp.code[k] in mem && mem[sp.code[k]] == Data(ZeroPage()))
    && sp.stack in mem && mem[sp.stack] == Data(ZeroPage())
  }

  lemma FillableParts(mem: Memory, ctx: Context, sp: Space)
    requires Fillable(mem, ctx, sp)
    ensures |sp.code| == MAX_PAGES && forall j, k :: 0 <= j < k < MAX_PAGES ==> sp.code[j] != sp.code[k]
    ensures forall k :: 0 <= k < MAX_PAGES ==> sp.code[k] in mem && mem[sp.code[k]] == Data(ZeroPage())
  {
    hide Built, IsTable, ZeroPage;
    SeparateFields(ctx, sp);
  }

  lemma FillableWired(mem: Memory, n: Memory, ctx: Context, sp: Space, m: Image)
    requires Fillable(mem, ctx, sp) && AcceptableImage(m) && |m.staged| == IMAGE_MAX
    requires n.Keys == mem.Keys && forall f :: f in mem && f !in sp.code ==> n[f] == mem[f]
    requires forall k :: 0 <= k < MAX_PAGES ==> sp.code[k] in n && n[sp.code[k]] == Data(PageImage(m, k))
    ensures |CodeFlagsOf(m)| == MAX_PAGES
    ensures Wired(n, sp, CodeFlagsOf(m), m.count) == Installed(mem, ctx, sp, CodeFlagsOf(m), m.count, PagesOf(m))
  {
    hide Built, IsTable, ZeroPage, Separate, Wired, Installed, CodeFlagsOf, PageImage;
    FlagsSize(m);
    SecondWiring(mem, n, ctx, sp, [P_U, 0, 0, 0], 1, CodeFlagsOf(m), m.count, PagesOf(m));
  }

  lemma BeyondImage(m: Image, k: nat)
    requires |m.staged| == IMAGE_MAX && m.bytes <= IMAGE_MAX && m.count <= k
    ensures PageImage(m, k) == ZeroPage()
  {
  }

  lemma FlagsSize(m: Image)
    ensures |CodeFlagsOf(m)| == MAX_PAGES
  {
  }

  /** What acquiring leaves in the slot's pages, before an image is loaded. */
  lemma UserSpaceReady(s: System, ctx: Context, pool: set<nat>, i: nat)
    requires Inv(s, ctx, pool) && i < |s.procs| && s.procs[i] == EMPTY && Shaped(s) && Acquire(s, i).1
    ensures var t := Acquire(s, i).0;
      |t.procs| == |s.procs| && t.ctx == s.ctx && Fillable(t.mem, ctx, t.procs[i].space)
  {
    hide Inv, Shaped, Acquire, Acquired, Built, Separate, FramesOf, WithSpace, TopReached;
    if Strays(s.pmm) {
      AcquireStrays(s, ctx, pool, i);
    } else if |s.pmm.stack| < 12 {
      AcquireFails(s, ctx, pool, i);
    } else {
      var sp, k := AcquireSucceeds(s, ctx, pool, i);
      var t := Acquire(s, i).0;
      AcquiredSlot(s, t, ctx, pool, i, sp, k);
      AcquiredSpace(s, t, ctx, pool, i, sp, k);
      AcquiredBlank(s, ctx, pool, i, sp, k);
      SeparateFields(ctx, sp);
    }
  }

  lemma AcquiredSpace(s: System, t: System, ctx: Context, pool: set<nat>, i: nat, sp: Space, k: nat)
    requires Acquired(s, t, ctx, pool, i, sp, k)
    ensures WithSpace(sp).(kernelStack := k).space == sp && t.ctx == s.ctx
    ensures Separate(ctx, sp) && |sp.code| == MAX_PAGES && Built(t.mem, ctx, sp, [P_U, 0, 0, 0], 1)
    ensures IsTable(t.mem, ctx.pml4) && IsTable(t.mem, ctx.pdpt) && IsTable(t.mem, ctx.pd)
    ensures k !in FramesOf(sp)
  {
    hide Built, HeldBy, FramesOf, WritesFreeOnly, Closed, Present;
    var fs := FramesOf(sp) + [k];
    assert fs[|FramesOf(sp)|] == k;
    assert forall j :: 0 <= j < |FramesOf(sp)| ==> fs[j] == FramesOf(sp)[j];
  }

  lemma AcquiredBlank(s: System, ctx: Context, pool: set<nat>, i: nat, sp: Space, k: nat)
    requires Inv(s, ctx, pool) && i < |s.procs| && s.procs[i] == EMPTY && Shaped(s) && Acquire(s, i).1
    requires Acquired(s, Acquire(s, i).0, ctx, pool, i, sp, k)
    ensures |sp.code| == MAX_PAGES
    ensures var m := Acquire(s, i).0.mem;
      && (forall j :: 0 <= j < MAX_PAGES ==> sp.code[j] in m && m[sp.code[j]] == Data(ZeroPage()))
      && sp.stack in m && m[sp.stack] == Data(ZeroPage())
  {
    hide Inv, Shaped, Acquired, Built, Separate, FramesOf, WithSpace, Installed, KernelMappingsValid, UserTablesValid,
      SpaceOf, Pmm64.AllocMany, Pmm64.Alloc, Pmm64.FreeAll, Pmm64.Distinct, Aligned, IsTable, ZeroPage;
    var t := Acquire(s, i).0;
    InvPlain(s, ctx, pool);
    AcquiredSlot(s, t, ctx, pool, i, sp, k);
    AcquiredSpace(s, t, ctx, pool, i, sp, k);
    SpaceOfWith(sp);
    InstalledFrames(s.mem, ctx, sp, [P_U, 0, 0, 0], 1, BlankPages());
    FramesListed(sp);
  }

  /** A space that was allocated leaves nothing stray. */
  lemma ReadySpace(s: System, i: nat)
    requires Shaped(s) && i < |s.procs| && !s.strayed && AllocateSpace(s, i).1
    ensures !AllocateSpace(s, i).0.strayed
  {
    hide Shaped, Reached, SpaceOf, Installed, KernelMappingsValid, UserTablesValid, Pmm64.AllocMany;
  }

  /** The next eleven pages are apart from the kernel's tables. */
  lemma PagesSeparate(s: System, ctx: Context, pool: set<nat>)
    requires Inv(s, ctx, pool) && 0 !in Pmm64.AllocMany(s.pmm, 11).1
    ensures Separate(ctx, SpaceOf(Pmm64.AllocMany(s.pmm, 11).1))
    ensures IsTable(s.mem, ctx.pml4) && IsTable(s.mem, ctx.pdpt) && IsTable(s.mem, ctx.pd)
    ensures Reached(SourceTables(ctx))
  {
    hide Pmm64.Splits, Pmm64.AllocMany, Separate, Apart, HeldBy, SlotOk, Closed, Present;
    var a := Pmm64.AllocMany(s.pmm, 11);
    Pmm64.AllocManySplits(s.pmm, HeldBy(s.procs), pool, 11);
    TakenSeparate(a.0, HeldBy(s.procs), pool, a.1, ctx);
  }
}
