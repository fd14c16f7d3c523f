/** The kernel's own page tables as the paging builder makes them, and what every address of
    the identity window, the direct map, the kernel alias and the framebuffer means in them. */
module PagingBuilder64 {
  import opened MachineWords
  import opened UserLayout64
  import opened Wrappers
  import opened Paging64
  import opened AddressSpace64
  import opened SpaceInstall64

  const HUGE: nat := 0x20_0000
  const LOAD_BASE: nat := 0x10_0000
  const KERNEL_BASE: nat := 0xFFFF_FFFF_8000_0000
  const DIRECT_BASE: nat := 0xFFFF_8000_0000_0000
  const SCREEN_BASE: nat := 0xFFFF_9000_0000_0000
  const SCREEN_INDEX: nat := 288

  /** The frames of the thirteen tables, two code pages and the stack page. */
  datatype Tables = Tables(
    pml4: nat, pdpt: nat, pd: nat, directPdpt: nat, directPd: nat, screenPdpt: nat, screenPd: nat,
    kernelPdpt: nat, kernelPd: nat, kernelPt: nat, codePt: nat, stackPd: nat, stackPt: nat, code: seq<nat>, stack: nat)

  datatype Screen = Screen(addr: nat, pitch: nat, height: nat)

  /** What the builder is told: where the kernel lies, the framebuffer, and how many pages the
      embedded first program has. */
  datatype Plan = Plan(kernelStart: nat, kernelBytes: nat, screen: Option<Screen>, imagePages: nat)

  /** Where the alias of the kernel starts. */
  function KernelVirtual(plan: Plan): nat { (plan.kernelStart + (KERNEL_BASE - LOAD_BASE)) % U64 }

  function KernelPages(plan: Plan): nat {
    var n := (plan.kernelBytes + PAGE - 1) / PAGE;
    if n > WORDS then WORDS else n
  }

  function ScreenBase(s: Screen): nat { s.addr / HUGE * HUGE }

  /** The 2 MiB pages the framebuffer spans; the builder keeps the low 32 bits. */
  function ScreenSpan(s: Screen): nat { Spanned(s.addr % HUGE, s.pitch * s.height) }
  function Spanned(offset: nat, bytes: nat): nat { (bytes + offset + HUGE - 1) / HUGE }
  function ScreenPages(s: Screen): nat { ScreenSpan(s) % U32 }

  predicate ScreenFits(s: Screen) { 0 < ScreenPages(s) <= WORDS }

  // ----- the words of each table

  function One(i: nat, w: nat): seq<nat>
    requires i < WORDS
  {
    WithWord(Blank(), i, w)
  }

  function HugeWord(i: nat): nat { i * HUGE + P_W_HUGE }

  function Pml4Words(t: Tables): seq<nat> {
    WithWord(WithWord(WithWord(One(0, Entry(t.pdpt, P_W_U)), DIRECT_INDEX, Entry(t.directPdpt, P_W)),
      SCREEN_INDEX, Entry(t.screenPdpt, P_W)), KERNEL_INDEX, Entry(t.kernelPdpt, P_W))
  }

  function PdptWords(t: Tables): seq<nat> { WithWord(One(0, Entry(t.pd, P_W_U)), 1, Entry(t.stackPd, P_W_U)) }

  function HugeWords(): seq<nat> { seq(WORDS, i requires 0 <= i < WORDS => HugeWord(i)) }

  function PdWords(t: Tables): seq<nat> { WithWord(HugeWords(), 2, Entry(t.codePt, P_W_U)) }

  function ScreenPdptWords(t: Tables, plan: Plan): seq<nat> {
    if plan.screen.Some? && ScreenFits(plan.screen.value) then One(0, Entry(t.screenPd, P_W)) else Blank()
  }

  function ScreenPdWords(plan: Plan): seq<nat> {
    if plan.screen.Some? && ScreenFits(plan.screen.value) then
      seq(WORDS, i requires 0 <= i < WORDS =>
        if i < ScreenPages(plan.screen.value) then ScreenBase(plan.screen.value) + HugeWord(i) else 0)
    else Blank()
  }

  function KernelPtWords(plan: Plan): seq<nat> {
    seq(WORDS, i requires 0 <= i < WORDS =>
      if i < KernelPages(plan) then Entry(plan.kernelStart + i * PAGE, P_W) else 0)
  }

  function CodePtWords(t: Tables, plan: Plan): seq<nat> {
    seq(WORDS, i requires 0 <= i < WORDS => if i < plan.imagePages && i < |t.code| then Entry(t.code[i], P_U) else 0)
  }

  /** The tables are in memory as built. */
  ghost predicate InPlace(mem: Memory, t: Tables, plan: Plan) {
    && Holds(mem, t.pml4, Pml4Words(t)) && Holds(mem, t.pdpt, PdptWords(t)) && Holds(mem, t.pd, PdWords(t))
    && Holds(mem, t.directPdpt, One(0, Entry(t.directPd, P_W))) && Holds(mem, t.directPd, HugeWords())
    && Holds(mem, t.screenPdpt, ScreenPdptWords(t, plan)) && Holds(mem, t.screenPd, ScreenPdWords(plan))
    && Holds(mem, t.kernelPdpt, One(Index3(KernelVirtual(plan)), Entry(t.kernelPd, P_W)))
    && Holds(mem, t.kernelPd, One(Index2(KernelVirtual(plan)), Entry(t.kernelPt, P_W)))
    && Holds(mem, t.kernelPt, KernelPtWords(plan))
    && Holds(mem, t.codePt, CodePtWords(t, plan))
    && Holds(mem, t.stackPd, One(511, Entry(t.stackPt, P_W_U)))
    && Holds(mem, t.stackPt, One(511, Entry(t.stack, P_W_U)))
  }

  predicate Holds(mem: Memory, f: nat, words: seq<nat>) { f in mem && mem[f] == Table(words) && |words| == WORDS }

  ghost predicate FramesAligned(t: Tables) {
    && t.pml4 % PAGE == 0 && t.pdpt % PAGE == 0 && t.pd % PAGE == 0 && t.directPdpt % PAGE == 0
    && t.directPd % PAGE == 0
    && t.screenPdpt % PAGE == 0 && t.screenPd % PAGE == 0 && t.kernelPdpt % PAGE == 0 && t.kernelPd % PAGE == 0
    && t.kernelPt % PAGE == 0 && t.codePt % PAGE == 0 && t.stackPd % PAGE == 0 && t.stackPt % PAGE == 0
    && t.stack % PAGE == 0
    && |t.code| == 2 && t.code[0] % PAGE == 0 && t.code[1] % PAGE == 0
  }

  // ----- bits

  /** A word that leads supervisor mode, with write access, to the table at `frame`. */
  predicate LeadsKernel(e: nat, frame: nat) {
    Present(e) && Writable(e) && !User(e) && !Huge(e) && FrameOf(e) == frame
  }

  lemma EntryLeadsKernel(frame: nat)
    requires frame % PAGE == 0
    ensures LeadsKernel(Entry(frame, P_W), frame)
  {
    EntryBits(frame, P_W);
  }

  predicate MapsHuge(e: nat, base: nat) {
    Present(e) && Writable(e) && !User(e) && Huge(e) && e / HUGE * HUGE == base
  }

  lemma HugeWordBits(base: nat, i: nat)
    requires base % HUGE == 0
    ensures MapsHuge(base + HugeWord(i), base + i * HUGE)
  {
    var b := base + i * HUGE;
    assert b % HUGE == 0 by { SumMultiple(base, i); }
    HugeBase(b);
  }

  lemma SumMultiple(base: nat, i: nat)
    requires base % HUGE == 0
    ensures (base + i * HUGE) % HUGE == 0
    decreases i
  {
    if i > 0 {
      SumMultiple(base, i - 1);
    }
  }

  lemma HugeBase(b: nat)
    requires b % HUGE == 0
    ensures MapsHuge(b + P_W_HUGE, b)
  {
    var k := b / HUGE;
    assert b == k * 512 * 4096;
    assert b % 4096 == 0;
    EntryBits(b, P_W_HUGE);
  }

  // ----- indices

  lemma LowIndices(pa: nat)
    requires pa < GIB
    ensures Index4(pa) == 0 && Index3(pa) == 0 && Index2(pa) == pa / HUGE && pa / HUGE < WORDS
  {
  }

  lemma DirectIndices(pa: nat)
    requires pa < GIB
    ensures var va := DIRECT_BASE + pa;
      Index4(va) == DIRECT_INDEX && Index3(va) == 0 && Index2(va) == pa / HUGE && va % HUGE == pa % HUGE
  {
  }

  lemma ScreenIndices(off: nat)
    requires off < GIB
    ensures var va := SCREEN_BASE + off;
      Index4(va) == SCREEN_INDEX && Index3(va) == 0 && Index2(va) == off / HUGE && va % HUGE == off % HUGE
  {
  }

  /** Addresses `d` above the kernel base, within its GiB. */
  lemma KernelIndices(d: nat)
    requires d < GIB
    ensures var va := KERNEL_BASE + d;
      && Index4(va) == KERNEL_INDEX && Index3(va) == 510
      && Index2(va) == d / HUGE && Index1(va) == d / PAGE % WORDS && va % PAGE == d % PAGE
  {
    hide Index4, Index3, Index2, Index1;
    KernelTop(d);
    KernelSecond(d);
    KernelFirst(d);
  }

  lemma KernelTop(d: nat)
    requires d < GIB
    ensures Index4(KERNEL_BASE + d) == KERNEL_INDEX && Index3(KERNEL_BASE + d) == 510
  {
    assert (KERNEL_BASE + d) / 0x80_0000_0000 == 0x1FF_FFFF;
    assert (KERNEL_BASE + d) / 0x4000_0000 == 0x3_FFFF_FFFE;
  }

  lemma KernelSecond(d: nat)
    requires d < GIB
    ensures Index2(KERNEL_BASE + d) == d / HUGE
  {
    assert KERNEL_BASE == 0x7FF_FFFF_FC00 * HUGE;
    assert (KERNEL_BASE + d) / HUGE == 0x7FF_FFFF_FC00 + d / HUGE;
    assert 0x7FF_FFFF_FC00 == 0x3_FFFF_FFFE * 512;
  }

  lemma KernelFirst(d: nat)
    ensures Index1(KERNEL_BASE + d) == d / PAGE % WORDS && (KERNEL_BASE + d) % PAGE == d % PAGE
  {
    assert KERNEL_BASE == 0xF_FFFF_FFF8_0000 * PAGE;
    assert (KERNEL_BASE + d) / PAGE == 0xF_FFFF_FFF8_0000 + d / PAGE;
    assert 0xF_FFFF_FFF8_0000 == 0x7FF_FFFF_FC00 * WORDS;
  }

  // ----- words at the places the walks visit

  lemma HeldWord(mem: Memory, f: nat, words: seq<nat>, i: nat)
    requires Holds(mem, f, words) && i < WORDS
    ensures WordAt(mem, f, i) == words[i]
  {
  }

  lemma TopWords(mem: Memory, t: Tables, plan: Plan)
    requires InPlace(mem, t, plan) && FramesAligned(t)
    ensures Leads(WordAt(mem, t.pml4, 0), t.pdpt) && LeadsKernel(WordAt(mem, t.pml4, DIRECT_INDEX), t.directPdpt)
    ensures LeadsKernel(WordAt(mem, t.pml4, SCREEN_INDEX), t.screenPdpt)
    ensures LeadsKernel(WordAt(mem, t.pml4, KERNEL_INDEX), t.kernelPdpt)
    ensures Leads(WordAt(mem, t.pdpt, 0), t.pd) && LeadsKernel(WordAt(mem, t.directPdpt, 0), t.directPd)
  {
    hide Leads, LeadsKernel, Entry, Holds, Index2, Index3, KernelVirtual, KernelPtWords, CodePtWords, ScreenPdWords,
      ScreenPdptWords, HugeWords;
    HeldWord(mem, t.pml4, Pml4Words(t), 0);
    HeldWord(mem, t.pml4, Pml4Words(t), DIRECT_INDEX);
    HeldWord(mem, t.pml4, Pml4Words(t), SCREEN_INDEX);
    HeldWord(mem, t.pml4, Pml4Words(t), KERNEL_INDEX);
    HeldWord(mem, t.pdpt, PdptWords(t), 0);
    HeldWord(mem, t.directPdpt, One(0, Entry(t.directPd, P_W)), 0);
    EntryLeads(t.pdpt);
    EntryLeads(t.pd);
    EntryLeadsKernel(t.directPdpt);
    EntryLeadsKernel(t.screenPdpt);
    EntryLeadsKernel(t.kernelPdpt);
    EntryLeadsKernel(t.directPd);
  }

  lemma HugeWordsAt(mem: Memory, t: Tables, plan: Plan, i: nat)
    requires InPlace(mem, t, plan) && i < WORDS
    ensures MapsHuge(WordAt(mem, t.directPd, i), i * HUGE)
    ensures i != 2 ==> MapsHuge(WordAt(mem, t.pd, i), i * HUGE)
  {
    hide MapsHuge, Entry, Holds, Index2, Index3, KernelVirtual, KernelPtWords, CodePtWords, ScreenPdWords,
      ScreenPdptWords, HugeWord;
    HeldWord(mem, t.directPd, HugeWords(), i);
    HeldWord(mem, t.pd, PdWords(t), i);
    HugeWordBits(0, i);
  }

  lemma ByHuge(x: nat)
    ensures x / HUGE * HUGE + x % HUGE == x
  {
  }

  /** Identity: every address below 1 GiB outside the code slot maps to itself, for the
      supervisor only. */
  lemma IdentityWalk(mem: Memory, t: Tables, plan: Plan, pa: nat)
    requires InPlace(mem, t, plan) && FramesAligned(t) && pa < GIB && !(CODE_BASE <= pa < CODE_SLOT_END)
    ensures Walk(mem, t.pml4, pa) == Some(Leaf(pa, false, true))
  {
    hide InPlace, FramesAligned, Present, Writable, User, Huge, FrameOf, Index4, Index3, Index2, WordAt;
    LowIndices(pa);
    TopWords(mem, t, plan);
    HugeWordsAt(mem, t, plan, pa / HUGE);
    ByHuge(pa);
  }

  /** Direct map: the first GiB of physical memory at its fixed offset. */
  lemma DirectWalk(mem: Memory, t: Tables, plan: Plan, pa: nat)
    requires InPlace(mem, t, plan) && FramesAligned(t) && pa < GIB
    ensures Walk(mem, t.pml4, DIRECT_BASE + pa) == Some(Leaf(pa, false, true))
  {
    hide InPlace, FramesAligned, Present, Writable, User, Huge, FrameOf, Index4, Index3, Index2, WordAt;
    DirectIndices(pa);
    TopWords(mem, t, plan);
    HugeWordsAt(mem, t, plan, pa / HUGE);
    ByHuge(pa);
  }

  // ----- the framebuffer

  lemma ScreenWords(mem: Memory, t: Tables, plan: Plan, i: nat)
    requires InPlace(mem, t, plan) && FramesAligned(t) && plan.screen.Some? && ScreenFits(plan.screen.value)
    requires i < ScreenPages(plan.screen.value)
    ensures LeadsKernel(WordAt(mem, t.screenPdpt, 0), t.screenPd)
    ensures MapsHuge(WordAt(mem, t.screenPd, i), ScreenBase(plan.screen.value) + i * HUGE)
  {
    hide LeadsKernel, MapsHuge, Entry, Holds, Index2, Index3, KernelVirtual, KernelPtWords, CodePtWords, HugeWord,
      ScreenPages, ScreenBase;
    HeldWord(mem, t.screenPdpt, ScreenPdptWords(t, plan), 0);
    HeldWord(mem, t.screenPd, ScreenPdWords(plan), i);
    EntryLeadsKernel(t.screenPd);
    ScreenBaseAligned(plan.screen.value);
    HugeWordBits(ScreenBase(plan.screen.value), i);
  }

  lemma ScreenBaseAligned(s: Screen)
    ensures ScreenBase(s) % HUGE == 0 && ScreenBase(s) + s.addr % HUGE == s.addr
  {
  }

  lemma SpanCovers(offset: nat, bytes: nat, o: nat)
    requires o < bytes
    ensures (offset + o) / HUGE < Spanned(offset, bytes)
    ensures Spanned(offset, bytes) <= WORDS ==> offset + o < GIB
  {
  }

  lemma ScreenCovers(s: Screen, o: nat)
    requires s.addr % HUGE + s.pitch * s.height <= GIB && o < s.pitch * s.height
    ensures ScreenFits(s) && (s.addr % HUGE + o) / HUGE < ScreenPages(s) && s.addr % HUGE + o < GIB
  {
    hide Spanned;
    SpanWithin(s.addr % HUGE, s.pitch * s.height);
    SpanCovers(s.addr % HUGE, s.pitch * s.height, o);
  }

  /** A framebuffer spans at most one table exactly when it ends by 1 GiB in its window. */
  lemma SpanWithin(offset: nat, bytes: nat)
    ensures Spanned(offset, bytes) <= WORDS <==> offset + bytes <= GIB
    ensures Spanned(offset, bytes) == 0 <==> offset + bytes == 0
  {
  }

  /** Every byte of a framebuffer that fits appears at its place above the fixed base. */
  lemma ScreenWalk(mem: Memory, t: Tables, plan: Plan, o: nat)
    requires InPlace(mem, t, plan) && FramesAligned(t) && plan.screen.Some?
    requires var s := plan.screen.value; s.addr % HUGE + s.pitch * s.height <= GIB && o < s.pitch * s.height
    ensures Walk(mem, t.pml4, SCREEN_BASE + plan.screen.value.addr % HUGE + o) ==
      Some(Leaf(plan.screen.value.addr + o, false, true))
  {
    hide InPlace, FramesAligned, Present, Writable, User, Huge, FrameOf, Index4, Index3, Index2, WordAt, ScreenPages,
      ScreenBase, ScreenFits, ScreenSpan;
    var s := plan.screen.value;
    var off := s.addr % HUGE + o;
    ScreenCovers(s, o);
    ScreenIndices(off);
    TopWords(mem, t, plan);
    ScreenWords(mem, t, plan, off / HUGE);
    ScreenBaseAligned(s);
    ByHuge(off);
  }

  // ----- the kernel alias

  /** The linked kernel: page aligned, at or above its load base, inside the first GiB. */
  predicate Linked(plan: Plan) {
    && LOAD_BASE <= plan.kernelStart && plan.kernelStart % PAGE == 0
    && plan.kernelStart - LOAD_BASE + KernelPages(plan) * PAGE <= GIB
  }

  lemma KernelVirtualAt(plan: Plan)
    requires Linked(plan) && KernelPages(plan) > 0
    ensures KernelVirtual(plan) == KERNEL_BASE + (plan.kernelStart - LOAD_BASE)
    ensures Index3(KernelVirtual(plan)) == 510 && Index2(KernelVirtual(plan)) == (plan.kernelStart - LOAD_BASE) / HUGE
  {
    hide KernelPages;
    var d := plan.kernelStart - LOAD_BASE;
    assert d < GIB;
    KernelIndices(d);
  }

  lemma KernelWords(mem: Memory, t: Tables, plan: Plan, i: nat)
    requires InPlace(mem, t, plan) && FramesAligned(t) && Linked(plan) && KernelPages(plan) > 0 && i < WORDS
    ensures LeadsKernel(WordAt(mem, t.kernelPdpt, 510), t.kernelPd)
    ensures LeadsKernel(WordAt(mem, t.kernelPd, (plan.kernelStart - LOAD_BASE) / HUGE), t.kernelPt)
    ensures i < KernelPages(plan) ==> LeadsKernel(WordAt(mem, t.kernelPt, i), plan.kernelStart + i * PAGE)
    ensures i >= KernelPages(plan) ==> !Present(WordAt(mem, t.kernelPt, i))
  {
    hide LeadsKernel, Entry, Holds, Index2, Index3, KernelVirtual, CodePtWords, HugeWord, ScreenPdptWords,
      ScreenPdWords, KernelPages;
    KernelVirtualAt(plan);
    HeldWord(mem, t.kernelPdpt, One(Index3(KernelVirtual(plan)), Entry(t.kernelPd, P_W)), 510);
    HeldWord(mem, t.kernelPd, One(Index2(KernelVirtual(plan)), Entry(t.kernelPt, P_W)), Index2(KernelVirtual(plan)));
    HeldWord(mem, t.kernelPt, KernelPtWords(plan), i);
    EntryLeadsKernel(t.kernelPd);
    EntryLeadsKernel(t.kernelPt);
    PageMultiple(plan.kernelStart, i);
    EntryLeadsKernel(plan.kernelStart + i * PAGE);
  }

  lemma PageMultiple(base: nat, i: nat)
    requires base % PAGE == 0
    ensures (base + i * PAGE) % PAGE == 0
    decreases i
  {
    if i > 0 {
      PageMultiple(base, i - 1);
    }
  }

  /** The walk of an alias address goes to table word `Index1`. */
  lemma AliasWalk(mem: Memory, t: Tables, plan: Plan, off: nat)
    requires InPlace(mem, t, plan) && FramesAligned(t) && Linked(plan) && off < KernelPages(plan) * PAGE
    requires plan.kernelStart >= LOAD_BASE
    requires var d := plan.kernelStart - LOAD_BASE; (d + off) / HUGE == d / HUGE
    ensures var i := (plan.kernelStart - LOAD_BASE + off) / PAGE % WORDS;
      Walk(mem, t.pml4, KernelVirtual(plan) + off) ==
      if i < KernelPages(plan) then Some(Leaf(plan.kernelStart + i * PAGE + off % PAGE, false, true)) else None
  {
    hide InPlace, FramesAligned, Present, Writable, User, Huge, FrameOf, Index4, Index3, Index2, Index1, WordAt,
      KernelPages, KernelVirtual, Linked;
    AliasIndices(plan, off);
    TopWords(mem, t, plan);
    KernelWords(mem, t, plan, (plan.kernelStart - LOAD_BASE + off) / PAGE % WORDS);
  }

  lemma AliasIndices(plan: Plan, off: nat)
    requires Linked(plan) && off < KernelPages(plan) * PAGE
    ensures plan.kernelStart >= LOAD_BASE && KernelPages(plan) > 0
    ensures var d, va := plan.kernelStart - LOAD_BASE, KernelVirtual(plan) + off;
      && Index4(va) == KERNEL_INDEX && Index3(va) == 510 && Index2(va) == (d + off) / HUGE
      && Index1(va) == (d + off) / PAGE % WORDS && va % PAGE == off % PAGE
  {
    hide Index4, Index3, Index2, Index1, KernelPages, KernelVirtual;
    var d := plan.kernelStart - LOAD_BASE;
    KernelVirtualAt(plan);
    KernelIndices(d + off);
    FromLoadBase(plan.kernelStart);
    OffsetKept(d, off);
  }

  lemma FromLoadBase(k: nat)
    requires k % PAGE == 0 && k >= LOAD_BASE
    ensures (k - LOAD_BASE) % PAGE == 0
  {
  }

  lemma OffsetKept(d: nat, off: nat)
    requires d % PAGE == 0
    ensures (d + off) % PAGE == off % PAGE
  {
  }

  lemma AlignedAlias(d: nat, off: nat)
    requires d % HUGE == 0 && off < HUGE
    ensures (d + off) / HUGE == d / HUGE && (d + off) / PAGE % WORDS == off / PAGE
  {
    var k := d / HUGE;
    assert d == k * HUGE;
    assert (d + off) / PAGE == k * 512 + off / PAGE;
  }

  /** Alias address `off` is byte `off` of the kernel, for the supervisor only. */
  ghost predicate AliasTo(mem: Memory, t: Tables, plan: Plan, off: nat) {
    Walk(mem, t.pml4, KernelVirtual(plan) + off) == Some(Leaf(plan.kernelStart + off, false, true))
  }

  /** The alias is the kernel, byte for byte, exactly when the kernel starts a whole number of
      2 MiB pages above its load base: the alias table is filled from its first word. */
  lemma AliasExactly(mem: Memory, t: Tables, plan: Plan)
    requires InPlace(mem, t, plan) && FramesAligned(t) && Linked(plan) && KernelPages(plan) > 0
    ensures (plan.kernelStart - LOAD_BASE) % HUGE == 0 <==>
      forall off :: 0 <= off < KernelPages(plan) * PAGE ==> AliasTo(mem, t, plan, off)
  {
    hide InPlace, FramesAligned, Walk, KernelVirtual;
    var d := plan.kernelStart - LOAD_BASE;
    if d % HUGE == 0 {
      forall off | 0 <= off < KernelPages(plan) * PAGE ensures AliasTo(mem, t, plan, off) {
        AlignedAlias(d, off);
        AliasWalk(mem, t, plan, off);
      }
    } else {
      ShiftedAlias(mem, t, plan);
    }
  }

  lemma ShiftedAlias(mem: Memory, t: Tables, plan: Plan)
    requires InPlace(mem, t, plan) && FramesAligned(t) && Linked(plan) && KernelPages(plan) > 0
    requires (plan.kernelStart - LOAD_BASE) % HUGE != 0
    ensures !AliasTo(mem, t, plan, 0)
  {
    hide InPlace, FramesAligned, Walk, KernelVirtual, KernelPages;
    var d := plan.kernelStart - LOAD_BASE;
    AliasWalk(mem, t, plan, 0);
    assert d / PAGE % WORDS != 0 by { NonzeroIndex(d); }
  }

  lemma NonzeroIndex(d: nat)
    requires d % PAGE == 0 && d % HUGE != 0
    ensures d / PAGE % WORDS != 0
  {
  }

  /** With the kernel at its load base the three windows agree on every byte of it. */
  lemma WindowsAgree(mem: Memory, t: Tables, plan: Plan, off: nat)
    requires InPlace(mem, t, plan) && FramesAligned(t) && plan.kernelStart == LOAD_BASE
      && off < KernelPages(plan) * PAGE
    ensures var leaf := Some(Leaf(LOAD_BASE + off, false, true));
      && Walk(mem, t.pml4, LOAD_BASE + off) == leaf
      && Walk(mem, t.pml4, DIRECT_BASE + (LOAD_BASE + off)) == leaf
      && Walk(mem, t.pml4, KernelVirtual(plan) + off) == leaf
  {
    hide InPlace, FramesAligned, Walk, KernelVirtual;
    IdentityWalk(mem, t, plan, LOAD_BASE + off);
    DirectWalk(mem, t, plan, LOAD_BASE + off);
    AlignedAlias(0, off);
    AliasWalk(mem, t, plan, off);
  }

  // ----- the tables address spaces are cloned from

  lemma ClosedEntries(mem: Memory, t: Tables, plan: Plan)
    requires InPlace(mem, t, plan) && FramesAligned(t)
    ensures forall i :: 0 < i < WORDS ==> Closed(WordAt(mem, t.pml4, i))
    ensures forall i :: 2 <= i < WORDS ==> Closed(WordAt(mem, t.pdpt, i))
    ensures forall i :: 0 <= i < WORDS && i != 2 ==> Closed(WordAt(mem, t.pd, i))
  {
    hide InPlace, Present, Writable, User, Huge, FrameOf, MapsHuge;
    TopWords(mem, t, plan);
    forall i | 0 < i < WORDS ensures Closed(WordAt(mem, t.pml4, i)) {
      if i != DIRECT_INDEX && i != SCREEN_INDEX && i != KERNEL_INDEX {
        BlankElsewhere(mem, t, plan, i);
      }
    }
    forall i | 2 <= i < WORDS ensures Closed(WordAt(mem, t.pdpt, i)) {
      BlankElsewhere(mem, t, plan, i);
    }
    forall i | 0 <= i < WORDS && i != 2 ensures Closed(WordAt(mem, t.pd, i)) {
      HugeWordsAt(mem, t, plan, i);
      HugeCloses(WordAt(mem, t.pd, i), i * HUGE);
    }
  }

  lemma HugeCloses(e: nat, base: nat)
    requires MapsHuge(e, base)
    ensures Closed(e) && Present(e)
  {
  }

  lemma BlankElsewhere(mem: Memory, t: Tables, plan: Plan, i: nat)
    requires InPlace(mem, t, plan) && 0 < i < WORDS
    ensures i != DIRECT_INDEX && i != SCREEN_INDEX && i != KERNEL_INDEX ==> Closed(WordAt(mem, t.pml4, i))
    ensures i >= 2 ==> Closed(WordAt(mem, t.pdpt, i))
  {
    hide Entry, Holds, Index2, Index3, KernelVirtual, KernelPtWords, CodePtWords, ScreenPdWords, ScreenPdptWords,
      HugeWords;
    HeldWord(mem, t.pml4, Pml4Words(t), i);
    HeldWord(mem, t.pdpt, PdptWords(t), i);
  }

  /** What the builder makes is what address spaces are soundly cloned from. */
  lemma BuilderSound(mem: Memory, t: Tables, plan: Plan)
    requires InPlace(mem, t, plan) && FramesAligned(t)
    ensures SoundSource(mem, Context(t.pml4, t.pdpt, t.pd))
    ensures FrameOf(WordAt(mem, t.pd, 2)) == t.codePt
  {
    hide Present, Writable, User, Huge, FrameOf, Closed, MapsHuge, Entry, HugeWords, Index2, Index3, KernelVirtual,
      KernelPtWords, CodePtWords, ScreenPdWords, ScreenPdptWords;
    TopWords(mem, t, plan);
    ClosedEntries(mem, t, plan);
    HugeWordsAt(mem, t, plan, 0);
    HugeCloses(WordAt(mem, t.pd, 0), 0);
    HeldWord(mem, t.pml4, Pml4Words(t), 0);
    HeldWord(mem, t.pdpt, PdptWords(t), 0);
    HeldWord(mem, t.pd, PdWords(t), 2);
    EntryLeads(t.codePt);
  }

  // ----- the rest of the address space

  /** The first program has at most two code pages. */
  function FirstPages(plan: Plan): nat { if plan.imagePages < 2 then plan.imagePages else 2 }

  /** The first program: its code pages, read-only, and its stack page, for user mode; nothing
      else in the code slot and the second GiB. */
  lemma FirstProgramWalk(mem: Memory, t: Tables, plan: Plan, va: nat)
    requires InPlace(mem, t, plan) && FramesAligned(t)
    ensures match PlaceOf(va, FirstPages(plan))
      case CodePage(i) => i < |t.code| && Walk(mem, t.pml4, va) == Some(Leaf(t.code[i] + va % PAGE, true, false))
      case Stack => Walk(mem, t.pml4, va) == Some(Leaf(t.stack + va % PAGE, true, true))
      case CodeHole => Walk(mem, t.pml4, va) == None
      case StackHole => Walk(mem, t.pml4, va) == None
      case _ => true
  {
    hide InPlace, FramesAligned, Present, Writable, User, Huge, FrameOf, Index4, Index3, Index2, Index1, WordAt,
      CodeLeads;
    TopWords(mem, t, plan);
    FirstWords(mem, t, plan, Index2(va), Index1(va));
  }

  lemma FirstWords(mem: Memory, t: Tables, plan: Plan, j: nat, i: nat)
    requires InPlace(mem, t, plan) && FramesAligned(t) && i < WORDS && j < WORDS
    ensures Leads(WordAt(mem, t.pd, 2), t.codePt) && Leads(WordAt(mem, t.pdpt, 1), t.stackPd)
    ensures if j == 511 then Leads(WordAt(mem, t.stackPd, j), t.stackPt) else !Present(WordAt(mem, t.stackPd, j))
    ensures if i == 511 then Leads(WordAt(mem, t.stackPt, i), t.stack) else !Present(WordAt(mem, t.stackPt, i))
    ensures var e := WordAt(mem, t.codePt, i);
      if i < FirstPages(plan)
      then Present(e) && User(e) && !Writable(e) && |t.code| == 2 && FrameOf(e) == t.code[i] else !Present(e)
  {
    hide Leads, Entry, Holds, Index2, Index3, KernelVirtual, KernelPtWords, ScreenPdWords, ScreenPdptWords, HugeWords;
    HeldWord(mem, t.pd, PdWords(t), 2);
    HeldWord(mem, t.pdpt, PdptWords(t), 1);
    HeldWord(mem, t.stackPd, One(511, Entry(t.stackPt, P_W_U)), j);
    HeldWord(mem, t.stackPt, One(511, Entry(t.stack, P_W_U)), i);
    HeldWord(mem, t.codePt, CodePtWords(t, plan), i);
    EntryLeads(t.codePt);
    EntryLeads(t.stackPd);
    EntryLeads(t.stackPt);
    EntryLeads(t.stack);
    if i < FirstPages(plan) {
      CodeEntryLeads(t.code[i], P_U);
    }
  }

  /** The addresses of the builder's five windows, by their table indices. */
  predicate InWindow(plan: Plan, va: nat) {
    var k := KernelVirtual(plan);
    || (Index4(va) == 0 && Index3(va) < 2)
    || (Index4(va) == DIRECT_INDEX && Index3(va) == 0)
    || (Index4(va) == SCREEN_INDEX && Index3(va) == 0 && plan.screen.Some? && ScreenFits(plan.screen.value)
        && Index2(va) < ScreenPages(plan.screen.value))
    || (Index4(va) == KERNEL_INDEX && Index3(va) == Index3(k) && Index2(va) == Index2(k)
        && Index1(va) < KernelPages(plan))
  }

  /** Outside its windows the builder maps nothing. */
  lemma NothingElse(mem: Memory, t: Tables, plan: Plan, va: nat)
    requires InPlace(mem, t, plan) && FramesAligned(t) && !InWindow(plan, va)
    ensures Walk(mem, t.pml4, va) == None
  {
    hide InPlace, FramesAligned, Present, Writable, User, Huge, FrameOf, Index4, Index3, Index2, Index1, WordAt,
      KernelVirtual, KernelPages, ScreenPages, ScreenFits;
    TopWords(mem, t, plan);
    EmptyTop(mem, t, plan, Index4(va), Index3(va));
    EmptyScreen(mem, t, plan, Index3(va), Index2(va));
    EmptyAlias(mem, t, plan, Index3(va), Index2(va), Index1(va));
  }

  lemma EmptyTop(mem: Memory, t: Tables, plan: Plan, l: nat, k: nat)
    requires InPlace(mem, t, plan) && l < WORDS && k < WORDS
    ensures l != 0 && l != DIRECT_INDEX && l != SCREEN_INDEX && l != KERNEL_INDEX ==> !Present(WordAt(mem, t.pml4, l))
    ensures k >= 2 ==> !Present(WordAt(mem, t.pdpt, k))
    ensures k != 0 ==> !Present(WordAt(mem, t.directPdpt, k))
  {
    hide Entry, Holds, Index2, Index3, KernelVirtual, KernelPtWords, CodePtWords, ScreenPdWords, ScreenPdptWords,
      HugeWords;
    HeldWord(mem, t.pml4, Pml4Words(t), l);
    HeldWord(mem, t.pdpt, PdptWords(t), k);
    HeldWord(mem, t.directPdpt, One(0, Entry(t.directPd, P_W)), k);
  }

  lemma EmptyScreen(mem: Memory, t: Tables, plan: Plan, k: nat, j: nat)
    requires InPlace(mem, t, plan) && FramesAligned(t) && k < WORDS && j < WORDS
    ensures var fits := plan.screen.Some? && ScreenFits(plan.screen.value);
      if k != 0 || !fits then !Present(WordAt(mem, t.screenPdpt, k))
      else
        && LeadsKernel(WordAt(mem, t.screenPdpt, k), t.screenPd)
        && (j >= ScreenPages(plan.screen.value) ==> !Present(WordAt(mem, t.screenPd, j)))
  {
    hide LeadsKernel, Entry, Holds, Index2, Index3, KernelVirtual, KernelPtWords, CodePtWords, HugeWords, ScreenPages,
      ScreenFits, ScreenBase;
    HeldWord(mem, t.screenPdpt, ScreenPdptWords(t, plan), k);
    HeldWord(mem, t.screenPd, ScreenPdWords(plan), j);
    EntryLeadsKernel(t.screenPd);
  }

  lemma EmptyAlias(mem: Memory, t: Tables, plan: Plan, k: nat, j: nat, i: nat)
    requires InPlace(mem, t, plan) && FramesAligned(t) && k < WORDS && j < WORDS && i < WORDS
    ensures if k == Index3(KernelVirtual(plan)) then LeadsKernel(WordAt(mem, t.kernelPdpt, k), t.kernelPd)
      else !Present(WordAt(mem, t.kernelPdpt, k))
    ensures if j == Index2(KernelVirtual(plan)) then LeadsKernel(WordAt(mem, t.kernelPd, j), t.kernelPt)
      else !Present(WordAt(mem, t.kernelPd, j))
    ensures i >= KernelPages(plan) ==> !Present(WordAt(mem, t.kernelPt, i))
  {
    hide LeadsKernel, Entry, Holds, Index2, Index3, KernelVirtual, KernelPages, CodePtWords, HugeWords, ScreenPdWords,
      ScreenPdptWords;
    HeldWord(mem, t.kernelPdpt, One(Index3(KernelVirtual(plan)), Entry(t.kernelPd, P_W)), k);
    HeldWord(mem, t.kernelPd, One(Index2(KernelVirtual(plan)), Entry(t.kernelPt, P_W)), j);
    HeldWord(mem, t.kernelPt, KernelPtWords(plan), i);
    EntryLeadsKernel(t.kernelPd);
    EntryLeadsKernel(t.kernelPt);
  }

  // ----- the builder's verdict

  predicate KernelFits(plan: Plan) { (plan.kernelBytes + PAGE - 1) / PAGE <= WORDS }

  /** The entry checks of the builder, on the words in memory. */
  predicate EntriesOk(mem: Memory, t: Tables, plan: Plan) {
    && Present(WordAt(mem, t.pml4, 0)) && Present(WordAt(mem, t.pdpt, 0)) && Present(WordAt(mem, t.pd, 0))
    && Present(WordAt(mem, t.pml4, DIRECT_INDEX)) && Present(WordAt(mem, t.directPdpt, 0))
    && Present(WordAt(mem, t.directPd, 0))
    && (plan.screen.Some? ==>
          Present(WordAt(mem, t.pml4, SCREEN_INDEX)) && Present(WordAt(mem, t.screenPdpt, 0))
            && Present(WordAt(mem, t.screenPd, 0)))
    && Present(WordAt(mem, t.pml4, KERNEL_INDEX)) && Present(WordAt(mem, t.kernelPdpt, Index3(KernelVirtual(plan))))
    && Present(WordAt(mem, t.kernelPd, Index2(KernelVirtual(plan)))) && Present(WordAt(mem, t.kernelPt, 0))
    && KernelFits(plan)
  }

  lemma ScreenEntry(mem: Memory, t: Tables, plan: Plan)
    requires InPlace(mem, t, plan) && FramesAligned(t) && plan.screen.Some?
    ensures Present(WordAt(mem, t.screenPdpt, 0)) && Present(WordAt(mem, t.screenPd, 0)) <==>
      ScreenFits(plan.screen.value)
  {
    hide LeadsKernel, MapsHuge, Entry, Holds, Index2, Index3, KernelVirtual, KernelPtWords, CodePtWords, HugeWord,
      ScreenPages, ScreenBase, HugeWords;
    if ScreenFits(plan.screen.value) {
      ScreenWords(mem, t, plan, 0);
      KernelPresent(WordAt(mem, t.screenPdpt, 0), t.screenPd);
      HugeCloses(WordAt(mem, t.screenPd, 0), ScreenBase(plan.screen.value) + 0 * HUGE);
    } else {
      HeldWord(mem, t.screenPdpt, ScreenPdptWords(t, plan), 0);
    }
  }

  lemma KernelPresent(e: nat, frame: nat)
    requires LeadsKernel(e, frame)
    ensures Present(e)
  {
  }

  lemma KernelEntry(mem: Memory, t: Tables, plan: Plan)
    requires InPlace(mem, t, plan) && FramesAligned(t) && plan.kernelStart % PAGE == 0
    ensures Present(WordAt(mem, t.kernelPdpt, Index3(KernelVirtual(plan))))
      && Present(WordAt(mem, t.kernelPd, Index2(KernelVirtual(plan))))
    ensures Present(WordAt(mem, t.kernelPt, 0)) <==> plan.kernelBytes > 0
  {
    hide LeadsKernel, Entry, Holds, Index2, Index3, KernelVirtual, CodePtWords, HugeWord, ScreenPdptWords,
      ScreenPdWords, HugeWords;
    var i3, i2 := Index3(KernelVirtual(plan)), Index2(KernelVirtual(plan));
    HeldWord(mem, t.kernelPdpt, One(i3, Entry(t.kernelPd, P_W)), i3);
    HeldWord(mem, t.kernelPd, One(i2, Entry(t.kernelPt, P_W)), i2);
    HeldWord(mem, t.kernelPt, KernelPtWords(plan), 0);
    EntryLeadsKernel(t.kernelPd);
    EntryLeadsKernel(t.kernelPt);
    EntryLeadsKernel(plan.kernelStart);
    KernelPresent(Entry(t.kernelPd, P_W), t.kernelPd);
    KernelPresent(Entry(t.kernelPt, P_W), t.kernelPt);
    KernelPresent(Entry(plan.kernelStart, P_W), plan.kernelStart);
    ZeroAbsent();
  }

  lemma KernelFitsExactly(plan: Plan)
    ensures KernelFits(plan) <==> plan.kernelBytes <= 0x20_0000
  {
  }

  /** Where the 32 bits of the page count do not wrap, this is: not empty, and ends by 1 GiB. */
  lemma ScreenFitsExactly(s: Screen)
    ensures ScreenFits(s) <==>
      1 <= (s.pitch * s.height + s.addr % 0x20_0000 + 0x1F_FFFF) / 0x20_0000 % 0x1_0000_0000 <= 512
    ensures ScreenSpan(s) < U32 ==> (ScreenFits(s) <==> 0 < s.addr % 0x20_0000 + s.pitch * s.height <= 0x4000_0000)
  {
    hide Spanned;
    SpanWithin(s.addr % HUGE, s.pitch * s.height);
    SpanIs(s.addr % HUGE, s.pitch * s.height);
  }

  lemma SpanIs(offset: nat, bytes: nat)
    ensures Spanned(offset, bytes) == (bytes + offset + 0x1F_FFFF) / 0x20_0000
  {
  }

  /** The kernel and framebuffer entry checks hold exactly when the kernel has 1 byte to 2 MiB
      and the 2 MiB pages of a requested framebuffer, counted in 32 bits, are 1 to 512. */
  lemma EntriesOkExactly(mem: Memory, t: Tables, plan: Plan)
    requires InPlace(mem, t, plan) && FramesAligned(t) && plan.kernelStart % PAGE == 0
    ensures EntriesOk(mem, t, plan) <==>
      && 1 <= plan.kernelBytes <= 0x20_0000
      && (plan.screen.Some? ==>
            var s := plan.screen.value;
            1 <= (s.pitch * s.height + s.addr % 0x20_0000 + 0x1F_FFFF) / 0x20_0000 % 0x1_0000_0000 <= 512)
  {
    hide InPlace, FramesAligned, WordAt, Present, KernelFits, ScreenFits, Index2, Index3, KernelVirtual, MapsHuge;
    TopWords(mem, t, plan);
    HugeWordsAt(mem, t, plan, 0);
    HugeCloses(WordAt(mem, t.pd, 0), 0);
    HugeCloses(WordAt(mem, t.directPd, 0), 0);
    KernelEntry(mem, t, plan);
    KernelFitsExactly(plan);
    if plan.screen.Some? {
      ScreenEntry(mem, t, plan);
      ScreenFitsExactly(plan.screen.value);
    }
  }
}
