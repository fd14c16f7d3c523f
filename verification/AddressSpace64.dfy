/** A process address space: page tables cloned from the kernel's, with a 2 MiB code slot
    and a stack page of its own. What the tables mean is stated through the walk. */
module AddressSpace64 {
  import opened MachineWords
  import opened UserLayout64
  import opened Wrappers
  import opened Paging64

  /** The eleven frames of an address space; 0 stands for none. */
  datatype Space = Space(
    cr3: nat, pdpt: nat, codePd: nat, stackPd: nat, codePt: nat, stackPt: nat, code: seq<nat>, stack: nat)

  function FramesOf(sp: Space): seq<nat> {
    [sp.cr3, sp.pdpt, sp.codePd, sp.stackPd, sp.codePt, sp.stackPt] + sp.code + [sp.stack]
  }

  /** The kernel tables that address spaces are cloned from. */
  datatype Context = Context(pml4: nat, pdpt: nat, pd: nat)

  const DIRECT_INDEX: nat := 256
  const KERNEL_INDEX: nat := 511

  predicate IsTable(mem: Memory, t: nat) {
    t in mem && mem[t].Table? && |mem[t].words| == WORDS
  }

  /** The kernel's own tables: linked as the builder links them, with nothing but the
      identity path, the code slot and the second GiB open to user mode. */
  ghost predicate SoundSource(mem: Memory, ctx: Context) {
    && IsTable(mem, ctx.pml4) && IsTable(mem, ctx.pdpt) && IsTable(mem, ctx.pd)
    && ctx.pdpt % PAGE == 0 && ctx.pd % PAGE == 0
    && WordAt(mem, ctx.pml4, 0) == Entry(ctx.pdpt, P_W_U)
    && WordAt(mem, ctx.pdpt, 0) == Entry(ctx.pd, P_W_U)
    && Present(WordAt(mem, ctx.pml4, DIRECT_INDEX)) && Present(WordAt(mem, ctx.pml4, KERNEL_INDEX))
    && Present(WordAt(mem, ctx.pd, 0))
    && (forall i :: 0 < i < WORDS ==> Closed(WordAt(mem, ctx.pml4, i)))
    && (forall i :: 2 <= i < WORDS ==> Closed(WordAt(mem, ctx.pdpt, i)))
    && (forall i :: 0 <= i < WORDS && i != 2 ==> Closed(WordAt(mem, ctx.pd, i)))
  }

  /** A word through which user mode gets nowhere. */
  predicate Closed(e: nat) { !Present(e) || !User(e) }

  predicate CodeFlags(f: nat) { f == P_U || f == P_W_U }

  function Blank(): seq<nat> { seq(WORDS, _ => 0) }

  /** Word `i` of the code page table after `count` pages were entered. */
  function CodeWord(sp: Space, flags: seq<nat>, count: nat, i: nat): nat {
    if i < count && i < |sp.code| && i < |flags| then Entry(sp.code[i], flags[i]) else 0
  }

  /** The six tables hold the kernel's words except on the user paths. */
  ghost predicate Built(mem: Memory, ctx: Context, sp: Space, flags: seq<nat>, count: nat) {
    && IsTable(mem, sp.cr3) && IsTable(mem, sp.pdpt) && IsTable(mem, sp.codePd)
    && IsTable(mem, sp.stackPd) && IsTable(mem, sp.codePt) && IsTable(mem, sp.stackPt)
    && (forall i :: 0 <= i < WORDS ==>
          WordAt(mem, sp.cr3, i) == if i == 0 then Entry(sp.pdpt, P_W_U) else WordAt(mem, ctx.pml4, i))
    && (forall i :: 0 <= i < WORDS ==>
          WordAt(mem, sp.pdpt, i) ==
          if i == 0 then Entry(sp.codePd, P_W_U) else if i == 1 then Entry(sp.stackPd, P_W_U)
          else WordAt(mem, ctx.pdpt, i))
    && (forall i :: 0 <= i < WORDS ==>
          WordAt(mem, sp.codePd, i) == if i == 2 then Entry(sp.codePt, P_W_U) else WordAt(mem, ctx.pd, i))
    && (forall i :: 0 <= i < WORDS ==>
          WordAt(mem, sp.stackPd, i) == if i == 511 then Entry(sp.stackPt, P_W_U) else 0)
    && (forall i :: 0 <= i < WORDS ==> WordAt(mem, sp.codePt, i) == CodeWord(sp, flags, count, i))
    && (forall i :: 0 <= i < WORDS ==>
          WordAt(mem, sp.stackPt, i) == if i == 511 then Entry(sp.stack, P_W_U) else 0)
  }

  /** Frames are page aligned; the mapped code pages carry code flags. */
  ghost predicate Aligned(sp: Space, flags: seq<nat>, count: nat) {
    && (forall f :: f in FramesOf(sp) ==> f % PAGE == 0)
    && |sp.code| == MAX_PAGES && |flags| == MAX_PAGES && 0 < count <= MAX_PAGES
    && (forall i :: 0 <= i < count ==> CodeFlags(flags[i]))
  }

  // ----- where an address falls

  datatype Place = CodePage(page: nat) | CodeHole | Stack | StackHole | Low | High3 | High4

  /** The part of the address space an address belongs to, by its table indices. */
  function PlaceOf(va: nat, count: nat): Place {
    if Index4(va) != 0 then High4
    else if Index3(va) >= 2 then High3
    else if Index3(va) == 1 then
      if Index2(va) == 511 && Index1(va) == 511 then Stack else StackHole
    else if Index2(va) != 2 then Low
    else if Index1(va) < count then CodePage(Index1(va))
    else CodeHole
  }

  /** For canonical low addresses the places are address ranges. */
  lemma PlaceRanges(va: nat, count: nat)
    requires va < 0x8000_0000_0000 && count <= MAX_PAGES
    ensures PlaceOf(va, count).CodePage? <==> CODE_BASE <= va < CODE_BASE + count * PAGE
    ensures PlaceOf(va, count).CodePage? ==> PlaceOf(va, count).page == (va - CODE_BASE) / PAGE
    ensures PlaceOf(va, count).Stack? <==> STACK_PAGE <= va < STACK_TOP
    ensures PlaceOf(va, count).CodeHole? || PlaceOf(va, count).CodePage? <==> CODE_BASE <= va < CODE_SLOT_END
    ensures PlaceOf(va, count).StackHole? || PlaceOf(va, count).Stack? <==> GIB <= va < STACK_TOP
  {
  }

  // ----- what the tables mean

  /** A word that leads user mode, with write access, to the table or page at `frame`. */
  predicate Leads(e: nat, frame: nat) {
    Present(e) && Writable(e) && User(e) && !Huge(e) && FrameOf(e) == frame
  }

  lemma EntryLeads(frame: nat)
    requires frame % PAGE == 0
    ensures Leads(Entry(frame, P_W_U), frame)
  {
    EntryBits(frame, P_W_U);
  }

  lemma SpaceLeads(sp: Space, flags: seq<nat>, count: nat)
    requires Aligned(sp, flags, count)
    ensures Leads(Entry(sp.pdpt, P_W_U), sp.pdpt) && Leads(Entry(sp.codePd, P_W_U), sp.codePd)
    ensures Leads(Entry(sp.stackPd, P_W_U), sp.stackPd) && Leads(Entry(sp.codePt, P_W_U), sp.codePt)
    ensures Leads(Entry(sp.stackPt, P_W_U), sp.stackPt) && Leads(Entry(sp.stack, P_W_U), sp.stack)
    ensures forall i :: 0 <= i < count ==> CodeLeads(Entry(sp.code[i], flags[i]), sp.code[i], flags[i])
  {
    hide Leads, CodeLeads, FramesOf, Entry, CodeFlags;
    FramesListed(sp);
    EntryLeads(sp.pdpt);
    EntryLeads(sp.codePd);
    EntryLeads(sp.stackPd);
    EntryLeads(sp.codePt);
    EntryLeads(sp.stackPt);
    EntryLeads(sp.stack);
    forall i | 0 <= i < count ensures CodeLeads(Entry(sp.code[i], flags[i]), sp.code[i], flags[i]) {
      CodeEntryLeads(sp.code[i], flags[i]);
    }
  }

  lemma CodeEntryLeads(frame: nat, flags: nat)
    requires frame % PAGE == 0 && CodeFlags(flags)
    ensures CodeLeads(Entry(frame, flags), frame, flags)
  {
    EntryBits(frame, flags);
  }

  predicate CodeLeads(e: nat, frame: nat, flags: nat) {
    Present(e) && User(e) && (Writable(e) <==> flags == P_W_U) && FrameOf(e) == frame && e % PAGE == flags
  }

  lemma SourceLeads(mem: Memory, ctx: Context)
    requires SoundSource(mem, ctx)
    ensures Leads(WordAt(mem, ctx.pml4, 0), ctx.pdpt) && Leads(WordAt(mem, ctx.pdpt, 0), ctx.pd)
  {
    EntryLeads(ctx.pdpt);
    EntryLeads(ctx.pd);
  }

  lemma FramesListed(sp: Space)
    ensures sp.cr3 in FramesOf(sp) && sp.pdpt in FramesOf(sp) && sp.codePd in FramesOf(sp)
    ensures sp.stackPd in FramesOf(sp) && sp.codePt in FramesOf(sp) && sp.stackPt in FramesOf(sp)
    ensures sp.stack in FramesOf(sp)
    ensures forall i :: 0 <= i < |sp.code| ==> sp.code[i] in FramesOf(sp)
  {
    var fs := FramesOf(sp);
    assert fs[0] == sp.cr3 && fs[1] == sp.pdpt && fs[2] == sp.codePd && fs[3] == sp.stackPd;
    assert fs[4] == sp.codePt && fs[5] == sp.stackPt && fs[6 + |sp.code|] == sp.stack;
    forall i | 0 <= i < |sp.code| ensures sp.code[i] in fs {
      assert fs[6 + i] == sp.code[i];
    }
  }

  lemma ZeroAbsent()
    ensures !Present(0)
  {
  }

  /** The walk of every address: the process's own code and stack pages with user rights,
      the rest of the code slot and of the second GiB unmapped, everything else exactly as
      in the kernel's tables. */
  lemma WalkOf(mem: Memory, ctx: Context, sp: Space, flags: seq<nat>, count: nat, va: nat)
    requires SoundSource(mem, ctx) && Built(mem, ctx, sp, flags, count) && Aligned(sp, flags, count)
    ensures match PlaceOf(va, count)
      case CodePage(i) =>
        i < |sp.code| && i < |flags|
          && Walk(mem, sp.cr3, va) == Some(Leaf(sp.code[i] + va % PAGE, true, flags[i] == P_W_U))
      case Stack => Walk(mem, sp.cr3, va) == Some(Leaf(sp.stack + va % PAGE, true, true))
      case CodeHole => Walk(mem, sp.cr3, va) == None
      case StackHole => Walk(mem, sp.cr3, va) == None
      case _ => Walk(mem, sp.cr3, va) == Walk(mem, ctx.pml4, va)
  {
    hide Present, Writable, User, Huge, FrameOf, Entry, Index1, Index2, Index3, Index4, SoundSource, WordAt, FramesOf,
      CodeFlags;
    ZeroAbsent();
    SpaceLeads(sp, flags, count);
    SourceLeads(mem, ctx);
    match PlaceOf(va, count) {
      case CodePage(i) => assert CodeLeads(Entry(sp.code[i], flags[i]), sp.code[i], flags[i]);
      case _ =>
    }
  }

  // ----- user reachability

  lemma NoUser(mem: Memory, t: nat, va: nat, w: bool)
    ensures var l := Walk3(mem, t, va, Rights(false, w)); l.Some? ==> !l.value.user
    ensures var l := Walk2(mem, t, va, Rights(false, w)); l.Some? ==> !l.value.user
    ensures var l := Walk1(mem, t, va, Rights(false, w)); l.Some? ==> !l.value.user
  {
  }

  /** Outside the code slot and the second GiB the kernel's tables give user mode nothing. */
  lemma SourceClosed(mem: Memory, ctx: Context, va: nat, count: nat)
    requires SoundSource(mem, ctx)
    requires PlaceOf(va, count).Low? || PlaceOf(va, count).High3? || PlaceOf(va, count).High4?
    ensures Walk(mem, ctx.pml4, va).Some? ==> !Walk(mem, ctx.pml4, va).value.user
  {
    hide Present, Writable, User, Huge, FrameOf, Entry, Index1, Index2, Index3, Index4;
    SourceLeads(mem, ctx);
    var e := WordAt(mem, ctx.pml4, Index4(va));
    NoUser(mem, FrameOf(e), va, Writable(e));
    var e3 := WordAt(mem, ctx.pdpt, Index3(va));
    NoUser(mem, FrameOf(e3), va, Writable(e) && Writable(e3));
    var e2 := WordAt(mem, ctx.pd, Index2(va));
    NoUser(mem, FrameOf(e2), va, Writable(e) && Writable(e3) && Writable(e2));
  }

  /** Some address reaches frame `f` with the user bit set at every level. */
  ghost predicate UserReaches(mem: Memory, cr3: nat, f: nat) {
    exists va :: UserLeaf(mem, cr3, va, f)
  }

  predicate UserLeaf(mem: Memory, cr3: nat, va: nat, f: nat) {
    var l := Walk(mem, cr3, va);
    l.Some? && l.value.user && FrameOf(l.value.phys) == f
  }

  lemma UserReachesOnly(mem: Memory, ctx: Context, sp: Space, flags: seq<nat>, count: nat, va: nat, f: nat)
    requires SoundSource(mem, ctx) && Built(mem, ctx, sp, flags, count) && Aligned(sp, flags, count)
    requires UserLeaf(mem, sp.cr3, va, f)
    ensures f in sp.code[..count] || f == sp.stack
  {
    hide Built, SoundSource, Walk, FrameOf, Index1, Index2, Index3, Index4;
    FramesListed(sp);
    WalkOf(mem, ctx, sp, flags, count, va);
    match PlaceOf(va, count) {
      case CodePage(i) => PageOfSum(sp.code[i], va);
      case Stack => PageOfSum(sp.stack, va);
      case CodeHole =>
      case StackHole =>
      case _ => SourceClosed(mem, ctx, va, count);
    }
  }

  lemma ReachesCode(mem: Memory, ctx: Context, sp: Space, flags: seq<nat>, count: nat, i: nat)
    requires SoundSource(mem, ctx) && Built(mem, ctx, sp, flags, count) && Aligned(sp, flags, count) && i < count
    ensures UserLeaf(mem, sp.cr3, CODE_BASE + i * PAGE, sp.code[i])
  {
    hide Built, SoundSource, Walk, FrameOf, PlaceOf;
    FramesListed(sp);
    var va := CODE_BASE + i * PAGE;
    CodePlace(i, count);
    WalkOf(mem, ctx, sp, flags, count, va);
    PageOfSum(sp.code[i], va);
  }

  lemma CodePlace(i: nat, count: nat)
    requires i < count <= MAX_PAGES
    ensures PlaceOf(CODE_BASE + i * PAGE, count) == CodePage(i)
  {
    hide PlaceOf;
    PlaceRanges(CODE_BASE + i * PAGE, count);
  }

  lemma ReachesStack(mem: Memory, ctx: Context, sp: Space, flags: seq<nat>, count: nat)
    requires SoundSource(mem, ctx) && Built(mem, ctx, sp, flags, count) && Aligned(sp, flags, count)
    ensures UserLeaf(mem, sp.cr3, STACK_PAGE, sp.stack)
  {
    hide Built, SoundSource, Walk, FrameOf, PlaceOf;
    FramesListed(sp);
    PlaceRanges(STACK_PAGE, count);
    WalkOf(mem, ctx, sp, flags, count, STACK_PAGE);
    PageOfSum(sp.stack, STACK_PAGE);
  }

  /** User mode reaches exactly the mapped code pages and the stack page. */
  lemma UserReachesExactly(mem: Memory, ctx: Context, sp: Space, flags: seq<nat>, count: nat, f: nat)
    requires SoundSource(mem, ctx) && Built(mem, ctx, sp, flags, count) && Aligned(sp, flags, count)
    ensures UserReaches(mem, sp.cr3, f) <==> f in sp.code[..count] || f == sp.stack
  {
    hide Built, SoundSource, UserLeaf;
    forall va | UserLeaf(mem, sp.cr3, va, f) ensures f in sp.code[..count] || f == sp.stack {
      UserReachesOnly(mem, ctx, sp, flags, count, va, f);
    }
    if f == sp.stack {
      ReachesStack(mem, ctx, sp, flags, count);
    } else if f in sp.code[..count] {
      var i :| 0 <= i < count && sp.code[i] == f;
      ReachesCode(mem, ctx, sp, flags, count, i);
    }
  }

  lemma PageOfSum(frame: nat, va: nat)
    requires frame % PAGE == 0
    ensures FrameOf(frame + va % PAGE) == frame && (frame + va % PAGE) % PAGE == va % PAGE
  {
    EntryBits(frame, va % PAGE);
  }

  // ----- the kernel's own checks

  /** `validate_kernel_mappings`. */
  predicate KernelMappingsValid(mem: Memory, ctx: Context, sp: Space) {
    && sp.cr3 != 0 && sp.pdpt != 0 && sp.codePd != 0
    && Present(WordAt(mem, ctx.pml4, DIRECT_INDEX))
    && Present(WordAt(mem, ctx.pml4, KERNEL_INDEX))
    && WordAt(mem, sp.cr3, DIRECT_INDEX) == WordAt(mem, ctx.pml4, DIRECT_INDEX)
    && WordAt(mem, sp.cr3, KERNEL_INDEX) == WordAt(mem, ctx.pml4, KERNEL_INDEX)
    && FrameOf(WordAt(mem, sp.cr3, 0)) == sp.pdpt && User(WordAt(mem, sp.cr3, 0))
    && FrameOf(WordAt(mem, sp.pdpt, 0)) == sp.codePd && User(WordAt(mem, sp.pdpt, 0))
    && Present(WordAt(mem, ctx.pdpt, 0))
    && Present(WordAt(mem, ctx.pd, 0))
    && WordAt(mem, sp.codePd, 0) == WordAt(mem, ctx.pd, 0)
    && WordAt(mem, sp.codePd, 2) != WordAt(mem, ctx.pd, 2)
  }

  predicate CodePageValid(mem: Memory, sp: Space, flags: seq<nat>, i: nat) {
    && i < WORDS && i < |sp.code| && i < |flags|
    && sp.code[i] != 0 && flags[i] != 0
    && Present(WordAt(mem, sp.codePt, i)) && User(WordAt(mem, sp.codePt, i))
    && FrameOf(WordAt(mem, sp.codePt, i)) == sp.code[i]
    && WordAt(mem, sp.codePt, i) % PAGE == flags[i]
  }

  predicate PointsUser(e: nat, frame: nat) {
    Present(e) && User(e) && FrameOf(e) == frame
  }

  /** `validate_user_page_tables`. */
  predicate UserTablesValid(mem: Memory, ctx: Context, sp: Space, flags: seq<nat>, count: nat) {
    && PointsUser(WordAt(mem, sp.cr3, 0), sp.pdpt)
    && PointsUser(WordAt(mem, sp.pdpt, 0), sp.codePd)
    && PointsUser(WordAt(mem, sp.pdpt, 1), sp.stackPd)
    && PointsUser(WordAt(mem, sp.codePd, 2), sp.codePt)
    && PointsUser(WordAt(mem, sp.stackPd, 511), sp.stackPt)
    && 0 < count <= MAX_PAGES
    && (forall i :: 0 <= i < count ==> CodePageValid(mem, sp, flags, i))
    && PointsUser(WordAt(mem, sp.stackPt, 511), sp.stack)
    && KernelMappingsValid(mem, ctx, sp)
  }

  /** Over sound kernel tables both checks pass on every freshly built address space, as
      long as its code table is not the frame the kernel's own code slot uses. */
  lemma ValidationsPass(mem: Memory, ctx: Context, sp: Space, flags: seq<nat>, count: nat)
    requires SoundSource(mem, ctx) && Built(mem, ctx, sp, flags, count) && Aligned(sp, flags, count)
    requires 0 !in FramesOf(sp) && FrameOf(WordAt(mem, ctx.pd, 2)) != sp.codePt
    ensures KernelMappingsValid(mem, ctx, sp)
    ensures UserTablesValid(mem, ctx, sp, flags, count)
  {
    hide Present, Writable, User, Huge, FrameOf, Entry;
    FramesListed(sp);
    SpaceLeads(sp, flags, count);
    SourceLeads(mem, ctx);
    forall i | 0 <= i < count ensures CodePageValid(mem, sp, flags, i) {
      assert CodeLeads(Entry(sp.code[i], flags[i]), sp.code[i], flags[i]);
    }
  }

  /** The words the checks follow are not large-page mappings, which the checks do not look at. */
  predicate SmallPages(mem: Memory, sp: Space) {
    && !Huge(WordAt(mem, sp.pdpt, 0)) && !Huge(WordAt(mem, sp.pdpt, 1))
    && !Huge(WordAt(mem, sp.codePd, 2)) && !Huge(WordAt(mem, sp.stackPd, 511))
  }

  /** What passing guarantees, of any tables: user mode reaches every listed code page and the
      stack page, and the kernel's two windows translate as in the kernel's own tables. */
  lemma ValidatedWalks(mem: Memory, ctx: Context, sp: Space, flags: seq<nat>, count: nat, va: nat)
    requires UserTablesValid(mem, ctx, sp, flags, count) && SmallPages(mem, sp)
    ensures match PlaceOf(va, count)
      case CodePage(i) =>
        i < |sp.code| && Walk(mem, sp.cr3, va).Some? && Walk(mem, sp.cr3, va).value.user
          && Walk(mem, sp.cr3, va).value.phys == sp.code[i] + va % PAGE
      case Stack =>
        Walk(mem, sp.cr3, va).Some? && Walk(mem, sp.cr3, va).value.user
          && Walk(mem, sp.cr3, va).value.phys == sp.stack + va % PAGE
      case _ =>
        Index4(va) == DIRECT_INDEX || Index4(va) == KERNEL_INDEX ==> Walk(mem, sp.cr3, va) == Walk(mem, ctx.pml4, va)
  {
    hide Present, Writable, User, Huge, FrameOf, Index1, Index2, Index3, Index4, WordAt;
    match PlaceOf(va, count) {
      case CodePage(i) => assert CodePageValid(mem, sp, flags, i);
      case _ =>
    }
  }
}
