/** The x86_64 process table: creation, exit and reaping over the page allocator and
    physical memory, as functions of the whole state, and what every run keeps. */
module Processes64 {
  import opened MachineWords
  import opened UserLayout64
  import opened Wrappers
  import opened Paging64
  import opened AddressSpace64
  import opened SpaceInstall64
  import Pmm64

  const MAX_PROCESSES: nat := 64
  const FRAMES_PER_PROCESS: nat := 12

  datatype Life = Unused | Ready | Running | Exited | Failed
  datatype Mode = NoMode | Kernel | UserMode

  datatype Process = Process(
    life: Life, mode: Mode, pid: nat, entry: nat, userEntry: nat, exitCode: nat,
    space: Space, kernelStack: nat, flags: seq<nat>, count: nat, kernelReady: bool, tablesReady: bool)

  const NO_SPACE: Space := Space(0, 0, 0, 0, 0, 0, [0, 0, 0, 0], 0)
  const NO_FLAGS: seq<nat> := [0, 0, 0, 0]
  const EMPTY: Process := Process(Unused, NoMode, 0, 0, 0, 0, NO_SPACE, 0, NO_FLAGS, 0, false, false)

  /** `strayed` once the kernel stored through a page's identity address and missed the page:
      it faulted or hit other memory, and nothing more happens. */
  datatype System = System(
    ready: bool, ctx: Option<Context>, mem: Memory, pmm: Pmm64.State, procs: seq<Process>, nextPid: nat, strayed: bool)

  predicate Shaped(s: System) {
    && |s.procs| == MAX_PROCESSES
    && (forall i :: 0 <= i < MAX_PROCESSES ==> |s.procs[i].space.code| == MAX_PAGES)
  }

  /** `find_unused_process`. */
  function FindUnused(procs: seq<Process>, i: nat := 0): (r: Option<nat>)
    requires i <= |procs|
    ensures r.Some? ==> i <= r.value < |procs| && procs[r.value].life == Unused
    ensures r.Some? ==> forall j :: i <= j < r.value ==> procs[j].life != Unused
    ensures r.None? ==> forall j :: i <= j < |procs| ==> procs[j].life != Unused
    decreases |procs| - i
  {
    if i == |procs| then None
    else if procs[i].life == Unused then Some(i)
    else FindUnused(procs, i + 1)
  }

  /** `find_process_by_pid`: the first live slot with that pid. */
  function FindPid(procs: seq<Process>, pid: nat, i: nat := 0): (r: Option<nat>)
    requires i <= |procs|
    ensures r.Some? ==> i <= r.value < |procs| && procs[r.value].life != Unused && procs[r.value].pid == pid
    ensures r.None? ==> forall j :: i <= j < |procs| && procs[j].life != Unused ==> procs[j].pid != pid
    decreases |procs| - i
  {
    if i == |procs| then None
    else if procs[i].life != Unused && procs[i].pid == pid then Some(i)
    else FindPid(procs, pid, i + 1)
  }

  /** The address space the next eleven pages make up, in allocation order. */
  function SpaceOf(pages: seq<nat>): Space
    requires |pages| == 11
  {
    Space(pages[0], pages[1], pages[2], pages[3], pages[4], pages[5], pages[6..10], pages[10])
  }

  /** The kernel writes and reads a page at the address equal to its number. */
  predicate Reached(pages: seq<nat>) { forall f :: f in pages ==> Windowed(f) }

  function SourceTables(ctx: Context): seq<nat> { [ctx.pml4, ctx.pdpt, ctx.pd] }

  function BlankPages(): seq<seq<nat>> { [ZeroPage(), ZeroPage(), ZeroPage(), ZeroPage()] }

  /** `release_address_space`: free every frame, forget the space. */
  function ReleaseSpace(s: System, i: nat): System
    requires i < |s.procs|
  {
    var p := s.procs[i];
    s.(pmm := Pmm64.FreeAll(s.pmm, FramesOf(p.space)),
       procs := s.procs[i := p.(space := NO_SPACE, flags := NO_FLAGS, count := 0, kernelReady := false,
         tablesReady := false)])
  }

  /** `release_kernel_stack`. */
  function ReleaseStack(s: System, i: nat): System
    requires i < |s.procs|
  {
    s.(pmm := Pmm64.Free(s.pmm, s.procs[i].kernelStack), procs := s.procs[i := s.procs[i].(kernelStack := 0)])
  }

  /** `allocate_address_space` for slot `i`. A space whose checks fail is not released. */
  function AllocateSpace(s: System, i: nat): (r: (System, bool))
    requires Shaped(s) && i < |s.procs|
  {
    var a := Pmm64.AllocMany(s.pmm, 11);
    var sp := SpaceOf(a.1);
    var taken := s.(pmm := a.0, procs := s.procs[i := s.procs[i].(space := sp)]);
    if 0 in a.1 then (ReleaseSpace(taken, i), false)
    else if !Reached(a.1) then (taken.(strayed := true), false)
    else if s.ctx.None? then (ReleaseSpace(taken, i), false)
    else if !Reached(SourceTables(s.ctx.value)) then (taken.(strayed := true), false)
    else
      var flags := [P_U, 0, 0, 0];
      var mem := Installed(s.mem, s.ctx.value, sp, flags, 1, BlankPages());
      var kernelReady := KernelMappingsValid(mem, s.ctx.value, sp);
      var tablesReady := UserTablesValid(mem, s.ctx.value, sp, flags, 1);
      var p := taken.procs[i].(flags := flags, count := 1, kernelReady := kernelReady, tablesReady := tablesReady);
      (taken.(mem := mem, procs := taken.procs[i := p]), kernelReady && tablesReady)
  }

  /** Address space and kernel stack together; on failure both are given back. */
  function Acquire(s: System, i: nat): (r: (System, bool))
    requires Shaped(s) && i < |s.procs|
  {
    var a := AllocateSpace(s, i);
    if !a.1 then a
    else
      var k := Pmm64.Alloc(a.0.pmm);
      if k.page == 0 then (ReleaseSpace(a.0.(pmm := k.state), i), false)
      else if !Windowed(k.page) then (a.0.(pmm := k.state, strayed := true), false)
      else
        (a.0.(pmm := k.state, mem := a.0.mem[k.page := Data(ZeroPage())],
              procs := a.0.procs[i := a.0.procs[i].(kernelStack := k.page)]), true)
  }

  /** `x86_64_process_create`; pid 0 is the failure result. */
  function CreateKernel(s: System, entry: nat): (r: (System, nat))
    requires Shaped(s)
  {
    hide Installed, KernelMappingsValid, UserTablesValid, Pmm64.AllocMany, Pmm64.FreeAll, Windowed;
    if !s.ready || entry == 0 || FindUnused(s.procs).None? then (s, 0)
    else
      var i := FindUnused(s.procs).value;
      var a := Acquire(s, i);
      if !a.1 then (a.0, 0)
      else
        var p := a.0.procs[i].(life := Ready, mode := Kernel, pid := s.nextPid, entry := entry, userEntry := 0,
          exitCode := 0);
        (a.0.(procs := a.0.procs[i := p], nextPid := (s.nextPid + 1) % U32), s.nextPid)
  }

  // ----- user images

  /** What `x86_64_process_create_user_image` is given: the staged bytes, how many of them
      count, the entry point, the number of pages and which of them are writable. */
  datatype Image = Image(staged: seq<nat>, bytes: nat, entry: nat, count: nat, writable: set<nat>)

  predicate AcceptableImage(m: Image) {
    && 0 < m.bytes <= IMAGE_MAX && 0 < m.count <= MAX_PAGES
    && CODE_BASE <= m.entry < CODE_BASE + m.count * PAGE
  }

  function CodeFlagsOf(m: Image): seq<nat> {
    seq(MAX_PAGES, i requires 0 <= i < MAX_PAGES =>
      if i >= m.count then 0 else if i in m.writable then P_W_U else P_U)
  }

  function PageImage(m: Image, i: nat): seq<nat>
    requires |m.staged| == IMAGE_MAX && m.bytes <= IMAGE_MAX
  {
    seq(PAGE, j requires 0 <= j < PAGE =>
      if i < m.count && i * PAGE + j < m.bytes then m.staged[i * PAGE + j] else 0)
  }

  function PagesOf(m: Image): seq<seq<nat>>
    requires |m.staged| == IMAGE_MAX && m.bytes <= IMAGE_MAX
  {
    [PageImage(m, 0), PageImage(m, 1), PageImage(m, 2), PageImage(m, 3)]
  }

  /** Slot `i` filled in, its pages loaded and wired. */
  function WireUser(t: System, i: nat, m: Image): (u: System)
    requires i < |t.procs| && |t.procs[i].space.code| == MAX_PAGES && t.ctx.Some?
    requires |m.staged| == IMAGE_MAX && AcceptableImage(m)
    ensures |u.procs| == |t.procs|
  {
    hide Installed, KernelMappingsValid, UserTablesValid, CodeFlagsOf, PageImage;
    var flags, sp, ctx := CodeFlagsOf(m), t.procs[i].space, t.ctx.value;
    var mem := Installed(t.mem, ctx, sp, flags, m.count, PagesOf(m));
    var p := t.procs[i].(life := Ready, mode := UserMode, pid := t.nextPid, entry := 0, userEntry := m.entry,
                         exitCode := 0, flags := flags, count := m.count,
                         kernelReady := KernelMappingsValid(mem, ctx, sp),
                         tablesReady := UserTablesValid(mem, ctx, sp, flags, m.count));
    t.(mem := mem, procs := t.procs[i := p], nextPid := (t.nextPid + 1) % U32)
  }

  /** The rest of `x86_64_process_create_user_image` once slot `i` has its frames: everything
      is given back should the check fail. */
  function FillUser(t: System, i: nat, m: Image): (r: (System, nat))
    requires i < |t.procs| && |t.procs[i].space.code| == MAX_PAGES && t.ctx.Some?
    requires |m.staged| == IMAGE_MAX && AcceptableImage(m)
  {
    var u := WireUser(t, i, m);
    if !u.procs[i].tablesReady then (ReleaseSpace(ReleaseStack(u, i), i), 0) else (u, t.nextPid)
  }

  /** `x86_64_process_create_user_image`; pid 0 is the failure result. */
  function CreateUser(s: System, m: Image): (r: (System, nat))
    requires Shaped(s) && |m.staged| == IMAGE_MAX
  {
    hide Installed, KernelMappingsValid, UserTablesValid, PageImage, Pmm64.AllocMany, Pmm64.FreeAll;
    if !s.ready || !AcceptableImage(m) || FindUnused(s.procs).None? then (s, 0)
    else
      var i := FindUnused(s.procs).value;
      var a := Acquire(s, i);
      if !a.1 then (a.0, 0) else FillUser(a.0, i, m)
  }

  // ----- exit, reaping and running

  /** `x86_64_process_mark_user_exited`. */
  function MarkExited(s: System, pid: nat, code: nat): System {
    match FindPid(s.procs, pid)
    case None => s
    case Some(i) =>
      if s.procs[i].mode != UserMode then s
      else s.(procs := s.procs[i := s.procs[i].(life := Exited, exitCode := code)])
  }

  predicate Reapable(p: Process) {
    p.mode == UserMode && (p.life == Exited || p.life == Failed)
  }

  /** `release_process_resources` followed by clearing the slot. */
  function ReapSlot(s: System, i: nat): System
    requires i < |s.procs|
  {
    var t := ReleaseStack(ReleaseSpace(s, i), i);
    t.(procs := t.procs[i := EMPTY])
  }

  /** `x86_64_process_reap_user`. */
  function Reap(s: System, pid: nat): System {
    match FindPid(s.procs, pid)
    case None => s
    case Some(i) => if Reapable(s.procs[i]) then ReapSlot(s, i) else s
  }

  /** The effect of `x86_64_process_run_next_ready` on the slot it selected; the body leaves
      `left` in its kernel stack page. */
  function RunSlot(s: System, i: nat, left: seq<nat>): System
    requires i < |s.procs|
  {
    var p := s.procs[i];
    if p.life != Ready || p.mode != Kernel || p.entry == 0 then s
    else if p.kernelStack == 0 || p.space.cr3 == 0 || !p.kernelReady then s.(procs := s.procs[i := p.(life := Failed)])
    else s.(mem := s.mem[p.kernelStack := Data(left)], procs := s.procs[i := p.(life := Exited, exitCode := 0)])
  }
}
