/** Writing an address space into physical memory. */
module SpaceInstall64 {
  import opened MachineWords
  import opened UserLayout64
  import opened Paging64
  import opened AddressSpace64

  function WithWord(ws: seq<nat>, i: nat, w: nat): seq<nat>
    requires i < |ws|
  {
    ws[i := w]
  }

  function PutWord(mem: Memory, t: nat, i: nat, w: nat): Memory
    requires IsTable(mem, t) && i < WORDS
  {
    mem[t := Table(WithWord(mem[t].words, i, w))]
  }

  function ZeroPage(): seq<nat> { seq(PAGE, _ => 0) }

  function CodeTable(sp: Space, flags: seq<nat>, count: nat): seq<nat> {
    seq(WORDS, i requires 0 <= i < WORDS => CodeWord(sp, flags, count, i))
  }

  /** The words copied out of frame `t`. */
  function WordsOf(mem: Memory, t: nat): (ws: seq<nat>)
    ensures |ws| == WORDS
  {
    if IsTable(mem, t) then mem[t].words else Blank()
  }

  /** Memory with the address space in place: the cloned tables with the user paths entered
      and the four code pages holding `pages`. */
  function Installed(mem: Memory, ctx: Context, sp: Space, flags: seq<nat>, count: nat, pages: seq<seq<nat>>): Memory
    requires |sp.code| == MAX_PAGES && |pages| == MAX_PAGES
  {
    mem[sp.cr3 := Table(WithWord(WordsOf(mem, ctx.pml4), 0, Entry(sp.pdpt, P_W_U)))]
       [sp.pdpt := Table(WithWord(WithWord(WordsOf(mem, ctx.pdpt), 0, Entry(sp.codePd, P_W_U)), 1,
         Entry(sp.stackPd, P_W_U)))]
       [sp.codePd := Table(WithWord(WordsOf(mem, ctx.pd), 2, Entry(sp.codePt, P_W_U)))]
       [sp.stackPd := Table(WithWord(Blank(), 511, Entry(sp.stackPt, P_W_U)))]
       [sp.codePt := Table(CodeTable(sp, flags, count))]
       [sp.stackPt := Table(WithWord(Blank(), 511, Entry(sp.stack, P_W_U)))]
       [sp.code[0] := Data(pages[0])][sp.code[1] := Data(pages[1])]
       [sp.code[2] := Data(pages[2])][sp.code[3] := Data(pages[3])]
       [sp.stack := Data(ZeroPage())]
  }

  /** Eleven different frames, none of them one of the kernel's source tables. */
  ghost predicate Separate(ctx: Context, sp: Space) {
    && |sp.code| == MAX_PAGES
    && (forall i, j :: 0 <= i < j < |FramesOf(sp)| ==> FramesOf(sp)[i] != FramesOf(sp)[j])
    && ctx.pml4 !in FramesOf(sp) && ctx.pdpt !in FramesOf(sp) && ctx.pd !in FramesOf(sp)
  }

  /** `a` and the fields after it in the frame list differ. */
  lemma SeparateFields(ctx: Context, sp: Space)
    requires Separate(ctx, sp)
    ensures sp.cr3 != sp.pdpt && sp.cr3 != sp.codePd && sp.cr3 != sp.stackPd && sp.cr3 != sp.codePt
      && sp.cr3 != sp.stackPt
    ensures sp.pdpt != sp.codePd && sp.pdpt != sp.stackPd && sp.pdpt != sp.codePt && sp.pdpt != sp.stackPt
    ensures sp.codePd != sp.stackPd && sp.codePd != sp.codePt && sp.codePd != sp.stackPt
    ensures sp.stackPd != sp.codePt && sp.stackPd != sp.stackPt && sp.codePt != sp.stackPt
    ensures forall k :: 0 <= k < MAX_PAGES ==>
      sp.code[k] !in [sp.cr3, sp.pdpt, sp.codePd, sp.stackPd, sp.codePt, sp.stackPt, sp.stack]
    ensures sp.stack !in [sp.cr3, sp.pdpt, sp.codePd, sp.stackPd, sp.codePt, sp.stackPt]
    ensures forall j, k :: 0 <= j < k < MAX_PAGES ==> sp.code[j] != sp.code[k]
  {
    var fs := FramesOf(sp);
    assert fs[0] == sp.cr3 && fs[1] == sp.pdpt && fs[2] == sp.codePd && fs[3] == sp.stackPd;
    assert fs[4] == sp.codePt && fs[5] == sp.stackPt && fs[10] == sp.stack;
    assert forall k :: 0 <= k < MAX_PAGES ==> fs[6 + k] == sp.code[k];
  }

  lemma SeparateSource(ctx: Context, sp: Space)
    requires Separate(ctx, sp)
    ensures |sp.code| == MAX_PAGES && ctx.pml4 !in FramesOf(sp) && ctx.pdpt !in FramesOf(sp) && ctx.pd !in FramesOf(sp)
  {
  }

  lemma InstalledFrames(mem: Memory, ctx: Context, sp: Space, flags: seq<nat>, count: nat, pages: seq<seq<nat>>)
    requires Separate(ctx, sp) && |pages| == MAX_PAGES
    ensures var m := Installed(mem, ctx, sp, flags, count, pages);
      && m.Keys == mem.Keys + (set f | f in FramesOf(sp))
      && (forall f :: f in mem && f !in FramesOf(sp) ==> m[f] == mem[f])
      && (forall k :: 0 <= k < MAX_PAGES ==> m[sp.code[k]] == Data(pages[k]))
      && m[sp.stack] == Data(ZeroPage())
  {
    hide WordsOf, Entry, WithWord, Blank, CodeTable, ZeroPage;
    SeparateFields(ctx, sp);
  }

  /** What each table frame holds once installed. */
  lemma InstalledTables(mem: Memory, ctx: Context, sp: Space, flags: seq<nat>, count: nat, pages: seq<seq<nat>>)
    requires Separate(ctx, sp) && |pages| == MAX_PAGES
    ensures var m := Installed(mem, ctx, sp, flags, count, pages);
      && sp.cr3 in m && m[sp.cr3] == Table(WithWord(WordsOf(mem, ctx.pml4), 0, Entry(sp.pdpt, P_W_U)))
      && sp.pdpt in m
      && m[sp.pdpt] ==
        Table(WithWord(WithWord(WordsOf(mem, ctx.pdpt), 0, Entry(sp.codePd, P_W_U)), 1, Entry(sp.stackPd, P_W_U)))
      && sp.codePd in m && m[sp.codePd] == Table(WithWord(WordsOf(mem, ctx.pd), 2, Entry(sp.codePt, P_W_U)))
      && sp.stackPd in m && m[sp.stackPd] == Table(WithWord(Blank(), 511, Entry(sp.stackPt, P_W_U)))
      && sp.codePt in m && m[sp.codePt] == Table(CodeTable(sp, flags, count))
      && sp.stackPt in m && m[sp.stackPt] == Table(WithWord(Blank(), 511, Entry(sp.stack, P_W_U)))
      && (ctx.pml4 in mem ==> ctx.pml4 in m && m[ctx.pml4] == mem[ctx.pml4])
      && (ctx.pdpt in mem ==> ctx.pdpt in m && m[ctx.pdpt] == mem[ctx.pdpt])
      && (ctx.pd in mem ==> ctx.pd in m && m[ctx.pd] == mem[ctx.pd])
  {
    hide WordsOf, Separate, Entry, WithWord, Blank, CodeTable, ZeroPage, FramesOf;
    assert |sp.code| == MAX_PAGES && ctx.pml4 !in FramesOf(sp) && ctx.pdpt !in FramesOf(sp)
      && ctx.pd !in FramesOf(sp) by {
      SeparateSource(ctx, sp);
    }
    SeparateFields(ctx, sp);
    FramesListed(sp);
  }

  lemma SourceKept(mem: Memory, m: Memory, ctx: Context)
    requires SoundSource(mem, ctx)
    requires ctx.pml4 in m && m[ctx.pml4] == mem[ctx.pml4]
    requires ctx.pdpt in m && m[ctx.pdpt] == mem[ctx.pdpt]
    requires ctx.pd in m && m[ctx.pd] == mem[ctx.pd]
    ensures SoundSource(m, ctx)
  {
    hide Present, User, Closed, Entry;
    forall i | 0 <= i < WORDS
      ensures WordAt(m, ctx.pml4, i) == WordAt(mem, ctx.pml4, i)
      ensures WordAt(m, ctx.pdpt, i) == WordAt(mem, ctx.pdpt, i)
      ensures WordAt(m, ctx.pd, i) == WordAt(mem, ctx.pd, i)
    {
    }
  }

  /** The installed tables are built, and the kernel's own tables are untouched. */
  lemma InstalledBuilt(mem: Memory, ctx: Context, sp: Space, flags: seq<nat>, count: nat, pages: seq<seq<nat>>)
    requires SoundSource(mem, ctx) && Separate(ctx, sp) && |pages| == MAX_PAGES
    ensures var m := Installed(mem, ctx, sp, flags, count, pages);
      SoundSource(m, ctx) && Built(m, ctx, sp, flags, count)
  {
    InstalledTables(mem, ctx, sp, flags, count, pages);
    SourceKept(mem, Installed(mem, ctx, sp, flags, count, pages), ctx);
    hide Closed, Installed, Separate, Present, Writable, User, Huge, FrameOf, Entry, CodeWord;
  }
}
