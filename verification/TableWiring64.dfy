/** The order in which the kernel really writes an address space: pages cleared, kernel tables
    copied, words entered one at a time. The result is the installed space. */
module TableWiring64 {
  import opened UserLayout64
  import opened Paging64
  import opened AddressSpace64
  import opened SpaceInstall64

  /** Word `i` of table `t` set; nothing when the frame holds no table. */
  function Put(mem: Memory, t: nat, i: nat, w: nat): Memory {
    if IsTable(mem, t) && i < WORDS then PutWord(mem, t, i, w) else mem
  }

  /** The table pages cleared. */
  function ClearedTables(mem: Memory, sp: Space): Memory {
    mem[sp.cr3 := Table(Blank())][sp.pdpt := Table(Blank())][sp.codePd := Table(Blank())]
       [sp.stackPd := Table(Blank())][sp.codePt := Table(Blank())][sp.stackPt := Table(Blank())]
  }

  /** The code and stack pages holding `pages` and zeros. */
  function FilledPages(mem: Memory, sp: Space, pages: seq<seq<nat>>): Memory
    requires |sp.code| == MAX_PAGES == |pages|
  {
    mem[sp.code[0] := Data(pages[0])][sp.code[1] := Data(pages[1])]
       [sp.code[2] := Data(pages[2])][sp.code[3] := Data(pages[3])]
       [sp.stack := Data(ZeroPage())]
  }

  /** `clone_kernel_mappings`. */
  function Cloned(mem: Memory, ctx: Context, sp: Space): Memory {
    var m1 := mem[sp.cr3 := Table(WordsOf(mem, ctx.pml4))];
    var m2 := m1[sp.pdpt := Table(WordsOf(m1, ctx.pdpt))];
    var m3 := m2[sp.codePd := Table(WordsOf(m2, ctx.pd))];
    Put(m3, sp.cr3, 0, Entry(sp.pdpt, P_W_U))
  }

  /** The code words entered so far. */
  function PutCode(mem: Memory, sp: Space, flags: seq<nat>, count: nat): Memory
    requires count <= |sp.code| && count <= |flags|
    decreases count
  {
    if count == 0 then mem
    else Put(PutCode(mem, sp, flags, count - 1), sp.codePt, count - 1, Entry(sp.code[count - 1], flags[count - 1]))
  }

  /** `build_user_page_tables`, in the source's order. */
  function Wired(mem: Memory, sp: Space, flags: seq<nat>, count: nat): Memory
    requires count <= |sp.code| && count <= |flags|
  {
    var m1 := Put(mem, sp.cr3, 0, Entry(sp.pdpt, P_W_U));
    var m2 := Put(m1, sp.pdpt, 0, Entry(sp.codePd, P_W_U));
    var m3 := Put(m2, sp.pdpt, 1, Entry(sp.stackPd, P_W_U));
    var m4 := Put(m3, sp.codePd, 2, Entry(sp.codePt, P_W_U));
    var m5 := Put(m4, sp.stackPd, 511, Entry(sp.stackPt, P_W_U));
    Put(PutCode(m5, sp, flags, count), sp.stackPt, 511, Entry(sp.stack, P_W_U))
  }

  // ----- what a sequence of word writes does to each frame

  function CodeWords(words: seq<nat>, sp: Space, flags: seq<nat>, count: nat): seq<nat>
    requires count <= |sp.code| && count <= |flags|
  {
    seq(|words|, i requires 0 <= i < |words| => if i < count then Entry(sp.code[i], flags[i]) else words[i])
  }

  lemma {:induction false} PutCodeWords(mem: Memory, sp: Space, flags: seq<nat>, count: nat)
    requires IsTable(mem, sp.codePt) && count <= |sp.code| && count <= |flags| && |sp.code| == MAX_PAGES
    ensures PutCode(mem, sp, flags, count) == mem[sp.codePt := Table(CodeWords(mem[sp.codePt].words, sp, flags, count))]
    decreases count
  {
    hide Entry;
    var words := mem[sp.codePt].words;
    if count == 0 {
      assert CodeWords(words, sp, flags, 0) == words;
    } else {
      PutCodeWords(mem, sp, flags, count - 1);
      assert WithWord(CodeWords(words, sp, flags, count - 1), count - 1, Entry(sp.code[count - 1], flags[count - 1]))
          == CodeWords(words, sp, flags, count);
    }
  }

  /** The six table frames differ. */
  ghost predicate TablesDiffer(sp: Space) {
    && sp.cr3 != sp.pdpt && sp.cr3 != sp.codePd && sp.cr3 != sp.stackPd && sp.cr3 != sp.codePt && sp.cr3 != sp.stackPt
    && sp.pdpt != sp.codePd && sp.pdpt != sp.stackPd && sp.pdpt != sp.codePt && sp.pdpt != sp.stackPt
    && sp.codePd != sp.stackPd && sp.codePd != sp.codePt && sp.codePd != sp.stackPt
    && sp.stackPd != sp.codePt && sp.stackPd != sp.stackPt && sp.codePt != sp.stackPt
  }

  ghost predicate AllTables(mem: Memory, sp: Space) {
    && IsTable(mem, sp.cr3) && IsTable(mem, sp.pdpt) && IsTable(mem, sp.codePd)
    && IsTable(mem, sp.stackPd) && IsTable(mem, sp.codePt) && IsTable(mem, sp.stackPt)
  }

  /** Every frame after the wiring, in one map update per table. */
  lemma WiredFrames(mem: Memory, sp: Space, flags: seq<nat>, count: nat)
    requires TablesDiffer(sp) && AllTables(mem, sp) && |sp.code| == MAX_PAGES && count <= MAX_PAGES && count <= |flags|
    ensures Wired(mem, sp, flags, count) ==
      mem[sp.cr3 := Table(WithWord(mem[sp.cr3].words, 0, Entry(sp.pdpt, P_W_U)))]
         [sp.pdpt := Table(WithWord(WithWord(mem[sp.pdpt].words, 0, Entry(sp.codePd, P_W_U)), 1,
           Entry(sp.stackPd, P_W_U)))]
         [sp.codePd := Table(WithWord(mem[sp.codePd].words, 2, Entry(sp.codePt, P_W_U)))]
         [sp.stackPd := Table(WithWord(mem[sp.stackPd].words, 511, Entry(sp.stackPt, P_W_U)))]
         [sp.codePt := Table(CodeWords(mem[sp.codePt].words, sp, flags, count))]
         [sp.stackPt := Table(WithWord(mem[sp.stackPt].words, 511, Entry(sp.stack, P_W_U)))]
  {
    hide Entry, Put, PutCode, CodeWords, WithWord, Blank;
    var e0, e1, e2 := Entry(sp.pdpt, P_W_U), Entry(sp.codePd, P_W_U), Entry(sp.stackPd, P_W_U);
    var e3, e4, e5 := Entry(sp.codePt, P_W_U), Entry(sp.stackPt, P_W_U), Entry(sp.stack, P_W_U);
    PutIs(mem, sp.cr3, 0, e0);
    var m1 := Put(mem, sp.cr3, 0, e0);
    PutIs(m1, sp.pdpt, 0, e1);
    var m2 := Put(m1, sp.pdpt, 0, e1);
    PutIs(m2, sp.pdpt, 1, e2);
    var m3 := Put(m2, sp.pdpt, 1, e2);
    PutIs(m3, sp.codePd, 2, e3);
    var m4 := Put(m3, sp.codePd, 2, e3);
    PutIs(m4, sp.stackPd, 511, e4);
    var m5 := Put(m4, sp.stackPd, 511, e4);
    PutCodeWords(m5, sp, flags, count);
    var m6 := PutCode(m5, sp, flags, count);
    PutIs(m6, sp.stackPt, 511, e5);
  }

  lemma PutIs(mem: Memory, t: nat, i: nat, w: nat)
    requires IsTable(mem, t) && i < WORDS
    ensures Put(mem, t, i, w) == mem[t := Table(WithWord(mem[t].words, i, w))] && IsTable(Put(mem, t, i, w), t)
  {
  }

  // ----- and that is the installed space

  /** Frame by frame, `m` is the installed space over `mem`. */
  ghost predicate Agrees(mem: Memory, m: Memory, ctx: Context, sp: Space, flags: seq<nat>, count: nat,
      pages: seq<seq<nat>>)
    requires |sp.code| == MAX_PAGES == |pages|
  {
    && m.Keys == mem.Keys + (set f | f in FramesOf(sp))
    && (forall f :: f in mem && f !in FramesOf(sp) ==> m[f] == mem[f])
    && sp.cr3 in m && m[sp.cr3] == Table(WithWord(WordsOf(mem, ctx.pml4), 0, Entry(sp.pdpt, P_W_U)))
    && sp.pdpt in m
    && m[sp.pdpt] ==
      Table(WithWord(WithWord(WordsOf(mem, ctx.pdpt), 0, Entry(sp.codePd, P_W_U)), 1, Entry(sp.stackPd, P_W_U)))
    && sp.codePd in m && m[sp.codePd] == Table(WithWord(WordsOf(mem, ctx.pd), 2, Entry(sp.codePt, P_W_U)))
    && sp.stackPd in m && m[sp.stackPd] == Table(WithWord(Blank(), 511, Entry(sp.stackPt, P_W_U)))
    && sp.codePt in m && m[sp.codePt] == Table(CodeTable(sp, flags, count))
    && sp.stackPt in m && m[sp.stackPt] == Table(WithWord(Blank(), 511, Entry(sp.stack, P_W_U)))
    && (forall k :: 0 <= k < MAX_PAGES ==> sp.code[k] in m && m[sp.code[k]] == Data(pages[k]))
    && sp.stack in m && m[sp.stack] == Data(ZeroPage())
  }

  lemma InstalledAgrees(mem: Memory, ctx: Context, sp: Space, flags: seq<nat>, count: nat, pages: seq<seq<nat>>)
    requires Separate(ctx, sp) && |pages| == MAX_PAGES
    ensures Agrees(mem, Installed(mem, ctx, sp, flags, count, pages), ctx, sp, flags, count, pages)
  {
    hide Installed, Entry, Blank, CodeTable, WordsOf, WithWord, FramesOf, ZeroPage;
    FramesListed(sp);
    InstalledFrames(mem, ctx, sp, flags, count, pages);
    InstalledTables(mem, ctx, sp, flags, count, pages);
  }

  lemma FrameCases(sp: Space, f: nat)
    requires |sp.code| == MAX_PAGES && f in FramesOf(sp)
    ensures f in [sp.cr3, sp.pdpt, sp.codePd, sp.stackPd, sp.codePt, sp.stackPt, sp.stack]
      || exists k :: 0 <= k < MAX_PAGES && sp.code[k] == f
  {
    var fs := FramesOf(sp);
    var n :| 0 <= n < |fs| && fs[n] == f;
    if 6 <= n < 10 {
      assert sp.code[n - 6] == f;
    }
  }

  lemma AgreeingEqual(mem: Memory, m: Memory, n: Memory, ctx: Context, sp: Space, flags: seq<nat>, count: nat,
      pages: seq<seq<nat>>)
    requires |sp.code| == MAX_PAGES == |pages|
    requires Agrees(mem, m, ctx, sp, flags, count, pages) && Agrees(mem, n, ctx, sp, flags, count, pages)
    ensures m == n
  {
    hide Entry, Blank, CodeTable, WordsOf, WithWord, FramesOf, ZeroPage;
    forall f | f in m ensures m[f] == n[f] {
      if f in FramesOf(sp) {
        FrameCases(sp, f);
      }
    }
  }

  /** Memory in which only the user paths remain to be entered. */
  ghost predicate Prepared(mem: Memory, m: Memory, ctx: Context, sp: Space, flags: seq<nat>, count: nat,
      pages: seq<seq<nat>>)
    requires |sp.code| == MAX_PAGES == |pages| && count <= MAX_PAGES && count <= |flags|
  {
    && m.Keys == mem.Keys + (set f | f in FramesOf(sp))
    && (forall f :: f in mem && f !in FramesOf(sp) ==> m[f] == mem[f])
    && AllTables(m, sp)
    && WithWord(m[sp.cr3].words, 0, Entry(sp.pdpt, P_W_U)) == WithWord(WordsOf(mem, ctx.pml4), 0, Entry(sp.pdpt, P_W_U))
    && WithWord(WithWord(m[sp.pdpt].words, 0, Entry(sp.codePd, P_W_U)), 1, Entry(sp.stackPd, P_W_U))
       == WithWord(WithWord(WordsOf(mem, ctx.pdpt), 0, Entry(sp.codePd, P_W_U)), 1, Entry(sp.stackPd, P_W_U))
    && WithWord(m[sp.codePd].words, 2, Entry(sp.codePt, P_W_U)) ==
      WithWord(WordsOf(mem, ctx.pd), 2, Entry(sp.codePt, P_W_U))
    && WithWord(m[sp.stackPd].words, 511, Entry(sp.stackPt, P_W_U)) == WithWord(Blank(), 511, Entry(sp.stackPt, P_W_U))
    && CodeWords(m[sp.codePt].words, sp, flags, count) == CodeTable(sp, flags, count)
    && WithWord(m[sp.stackPt].words, 511, Entry(sp.stack, P_W_U)) == WithWord(Blank(), 511, Entry(sp.stack, P_W_U))
    && (forall k :: 0 <= k < MAX_PAGES ==> sp.code[k] in m && m[sp.code[k]] == Data(pages[k]))
    && sp.stack in m && m[sp.stack] == Data(ZeroPage())
  }

  lemma SeparateTables(ctx: Context, sp: Space)
    requires Separate(ctx, sp)
    ensures TablesDiffer(sp) && sp.stack !in [sp.cr3, sp.pdpt, sp.codePd, sp.stackPd, sp.codePt, sp.stackPt]
    ensures forall k :: 0 <= k < MAX_PAGES ==>
      sp.code[k] !in [sp.cr3, sp.pdpt, sp.codePd, sp.stackPd, sp.codePt, sp.stackPt]
  {
    SeparateFields(ctx, sp);
  }

  lemma WiredAgrees(mem: Memory, m: Memory, ctx: Context, sp: Space, flags: seq<nat>, count: nat, pages: seq<seq<nat>>)
    requires Separate(ctx, sp) && |pages| == MAX_PAGES && count <= MAX_PAGES && count <= |flags|
    requires Prepared(mem, m, ctx, sp, flags, count, pages)
    ensures Agrees(mem, Wired(m, sp, flags, count), ctx, sp, flags, count, pages)
  {
    hide Wired, Entry, CodeTable, CodeWords, WordsOf, WithWord, Blank, ZeroPage, FramesOf, Separate;
    SeparateTables(ctx, sp);
    FramesListed(sp);
    assert |sp.code| == MAX_PAGES by { SeparateCode(ctx, sp); }
    WiredFrames(m, sp, flags, count);
    var n := Wired(m, sp, flags, count);
    assert n.Keys == m.Keys;
  }

  lemma SeparateCode(ctx: Context, sp: Space)
    requires Separate(ctx, sp)
    ensures |sp.code| == MAX_PAGES
  {
  }

  lemma PreparedInstalled(mem: Memory, m: Memory, ctx: Context, sp: Space, flags: seq<nat>, count: nat,
      pages: seq<seq<nat>>)
    requires Separate(ctx, sp) && |pages| == MAX_PAGES && count <= MAX_PAGES && count <= |flags|
    requires Prepared(mem, m, ctx, sp, flags, count, pages)
    ensures Wired(m, sp, flags, count) == Installed(mem, ctx, sp, flags, count, pages)
  {
    hide Prepared, Agrees, Wired, Installed, Separate;
    SeparateCode(ctx, sp);
    WiredAgrees(mem, m, ctx, sp, flags, count, pages);
    InstalledAgrees(mem, ctx, sp, flags, count, pages);
    AgreeingEqual(mem, Wired(m, sp, flags, count), Installed(mem, ctx, sp, flags, count, pages), ctx, sp, flags, count,
      pages);
  }

  // ----- the first wiring, over cleared pages

  lemma WordTwice(ws: seq<nat>, i: nat, w: nat)
    requires i < |ws|
    ensures WithWord(WithWord(ws, i, w), i, w) == WithWord(ws, i, w)
  {
  }

  lemma BlankCode(sp: Space, flags: seq<nat>, count: nat)
    requires |sp.code| == MAX_PAGES && count <= MAX_PAGES && count <= |flags|
    ensures CodeWords(Blank(), sp, flags, count) == CodeTable(sp, flags, count)
  {
    hide Entry;
  }

  /** Each frame once pages were cleared and filled. */
  lemma ClearedFrames(mem: Memory, ctx: Context, sp: Space, pages: seq<seq<nat>>)
    requires Separate(ctx, sp) && |pages| == MAX_PAGES
    ensures var m := FilledPages(ClearedTables(mem, sp), sp, pages);
      && m.Keys == mem.Keys + (set f | f in FramesOf(sp))
      && (forall f :: f in mem && f !in FramesOf(sp) ==> m[f] == mem[f])
      && sp.cr3 in m && m[sp.cr3] == Table(Blank()) && sp.pdpt in m && m[sp.pdpt] == Table(Blank())
      && sp.codePd in m && m[sp.codePd] == Table(Blank())
      && sp.stackPd in m && m[sp.stackPd] == Table(Blank()) && sp.codePt in m && m[sp.codePt] == Table(Blank())
      && sp.stackPt in m && m[sp.stackPt] == Table(Blank())
      && (forall k :: 0 <= k < MAX_PAGES ==> sp.code[k] in m && m[sp.code[k]] == Data(pages[k]))
      && sp.stack in m && m[sp.stack] == Data(ZeroPage())
  {
    hide Blank, ZeroPage, FramesOf, Separate;
    SeparateFields(ctx, sp);
    assert |sp.code| == MAX_PAGES by { SeparateCode(ctx, sp); }
    FramesListed(sp);
    var m := FilledPages(ClearedTables(mem, sp), sp, pages);
    forall f | f in m ensures f in mem || f in FramesOf(sp) {
    }
    forall f | f in FramesOf(sp) ensures f in m {
      FrameCases(sp, f);
    }
  }

  /** After clearing, every table is there to be written and the kernel's are untouched. */
  lemma ReadyToClone(mem: Memory, ctx: Context, sp: Space, pages: seq<seq<nat>>)
    requires Separate(ctx, sp) && |pages| == MAX_PAGES
    requires IsTable(mem, ctx.pml4) && IsTable(mem, ctx.pdpt) && IsTable(mem, ctx.pd)
    ensures TablesDiffer(sp) && AllTables(FilledPages(ClearedTables(mem, sp), sp, pages), sp)
    ensures var m := FilledPages(ClearedTables(mem, sp), sp, pages);
      IsTable(m, ctx.pml4) && IsTable(m, ctx.pdpt) && IsTable(m, ctx.pd)
    ensures forall t :: t in [ctx.pml4, ctx.pdpt, ctx.pd] ==> t !in [sp.cr3, sp.pdpt, sp.codePd]
  {
    hide FilledPages, ClearedTables, FramesOf;
    SeparateTables(ctx, sp);
    FramesListed(sp);
    ClearedFrames(mem, ctx, sp, pages);
  }

  /** Copying the kernel's three tables into their places. */
  lemma ClonedFrames(mem: Memory, m: Memory, ctx: Context, sp: Space)
    requires Separate(ctx, sp) && IsTable(mem, ctx.pml4) && IsTable(mem, ctx.pdpt) && IsTable(mem, ctx.pd)
    requires forall f :: f in mem && f !in FramesOf(sp) ==> f in m && m[f] == mem[f]
    ensures Cloned(m, ctx, sp) ==
      m[sp.cr3 := Table(WithWord(WordsOf(mem, ctx.pml4), 0, Entry(sp.pdpt, P_W_U)))]
       [sp.pdpt := Table(WordsOf(mem, ctx.pdpt))][sp.codePd := Table(WordsOf(mem, ctx.pd))]
  {
    hide Entry, FramesOf;
    SeparateTables(ctx, sp);
    FramesListed(sp);
    assert WordsOf(m, ctx.pml4) == WordsOf(mem, ctx.pml4);
  }

  /** Clearing, cloning and wiring fresh pages is installing the space. */
  lemma FirstWiring(mem: Memory, ctx: Context, sp: Space, flags: seq<nat>, count: nat, pages: seq<seq<nat>>)
    requires IsTable(mem, ctx.pml4) && IsTable(mem, ctx.pdpt) && IsTable(mem, ctx.pd)
    requires Separate(ctx, sp) && |pages| == MAX_PAGES && count <= MAX_PAGES == |flags|
    ensures Wired(Cloned(FilledPages(ClearedTables(mem, sp), sp, pages), ctx, sp), sp, flags, count)
         == Installed(mem, ctx, sp, flags, count, pages)
  {
    hide Wired, Installed, Entry, CodeTable, CodeWords, Cloned, FilledPages, ClearedTables, FramesOf, Separate,
      WithWord, Blank, ZeroPage;
    SeparateCode(ctx, sp);
    var m0 := FilledPages(ClearedTables(mem, sp), sp, pages);
    var m1 := Cloned(m0, ctx, sp);
    ClearedFrames(mem, ctx, sp, pages);
    ClonedFrames(mem, m0, ctx, sp);
    assert Prepared(mem, m1, ctx, sp, flags, count, pages) by {
      FramesListed(sp);
      SeparateTables(ctx, sp);
      BlankCode(sp, flags, count);
      BlankSize();
      WordTwice(WordsOf(mem, ctx.pml4), 0, Entry(sp.pdpt, P_W_U));
      WithWordSize(WordsOf(mem, ctx.pml4), 0, Entry(sp.pdpt, P_W_U));
    }
    PreparedInstalled(mem, m1, ctx, sp, flags, count, pages);
  }

  lemma BlankSize()
    ensures |Blank()| == WORDS
  {
  }

  lemma WithWordSize(ws: seq<nat>, i: nat, w: nat)
    requires i < |ws|
    ensures |WithWord(ws, i, w)| == |ws|
  {
  }

  // ----- the second wiring, over tables already built

  lemma SameWith(ws: seq<nat>, vs: seq<nat>, i: nat, w: nat)
    requires |ws| == |vs| && i < |ws| && forall k :: 0 <= k < |ws| && k != i ==> ws[k] == vs[k]
    ensures WithWord(ws, i, w) == WithWord(vs, i, w)
  {
  }

  lemma SameWithTwo(ws: seq<nat>, vs: seq<nat>, w: nat, x: nat)
    requires |ws| == |vs| && 1 < |ws| && forall k :: 2 <= k < |ws| ==> ws[k] == vs[k]
    ensures WithWord(WithWord(ws, 0, w), 1, x) == WithWord(WithWord(vs, 0, w), 1, x)
  {
  }

  lemma CodeOverCode(ws: seq<nat>, sp: Space, oldFlags: seq<nat>, before: nat, flags: seq<nat>, count: nat)
    requires |ws| == WORDS && |sp.code| == MAX_PAGES && before <= count <= MAX_PAGES && count <= |flags|
    requires forall i :: 0 <= i < WORDS ==> ws[i] == CodeWord(sp, oldFlags, before, i)
    ensures CodeWords(ws, sp, flags, count) == CodeTable(sp, flags, count)
  {
    hide Entry;
  }

  /** The words of built tables agree with the kernel's outside the user paths. */
  lemma BuiltWords(m: Memory, ctx: Context, sp: Space, before: seq<nat>, c: nat, flags: seq<nat>, count: nat)
    requires Built(m, ctx, sp, before, c) && c <= count <= MAX_PAGES == |sp.code| && count <= |flags|
    requires IsTable(m, ctx.pml4) && IsTable(m, ctx.pdpt) && IsTable(m, ctx.pd)
    ensures WithWord(m[sp.cr3].words, 0, Entry(sp.pdpt, P_W_U)) ==
      WithWord(WordsOf(m, ctx.pml4), 0, Entry(sp.pdpt, P_W_U))
    ensures WithWord(WithWord(m[sp.pdpt].words, 0, Entry(sp.codePd, P_W_U)), 1, Entry(sp.stackPd, P_W_U))
       == WithWord(WithWord(WordsOf(m, ctx.pdpt), 0, Entry(sp.codePd, P_W_U)), 1, Entry(sp.stackPd, P_W_U))
    ensures WithWord(m[sp.codePd].words, 2, Entry(sp.codePt, P_W_U)) ==
      WithWord(WordsOf(m, ctx.pd), 2, Entry(sp.codePt, P_W_U))
    ensures WithWord(m[sp.stackPd].words, 511, Entry(sp.stackPt, P_W_U)) ==
      WithWord(Blank(), 511, Entry(sp.stackPt, P_W_U))
    ensures CodeWords(m[sp.codePt].words, sp, flags, count) == CodeTable(sp, flags, count)
    ensures WithWord(m[sp.stackPt].words, 511, Entry(sp.stack, P_W_U)) == WithWord(Blank(), 511, Entry(sp.stack, P_W_U))
  {
    hide Entry, CodeWord, CodeWords, CodeTable, WithWord;
    forall i | 0 <= i < WORDS
      ensures WordAt(m, sp.cr3, i) == m[sp.cr3].words[i] && WordAt(m, sp.pdpt, i) == m[sp.pdpt].words[i]
      ensures WordAt(m, sp.codePd, i) == m[sp.codePd].words[i] && WordAt(m, sp.stackPd, i) == m[sp.stackPd].words[i]
      ensures WordAt(m, sp.codePt, i) == m[sp.codePt].words[i] && WordAt(m, sp.stackPt, i) == m[sp.stackPt].words[i]
      ensures WordAt(m, ctx.pml4, i) == m[ctx.pml4].words[i] && WordAt(m, ctx.pdpt, i) == m[ctx.pdpt].words[i]
      ensures WordAt(m, ctx.pd, i) == m[ctx.pd].words[i]
    {
    }
    SameWith(m[sp.cr3].words, WordsOf(m, ctx.pml4), 0, Entry(sp.pdpt, P_W_U));
    SameWithTwo(m[sp.pdpt].words, WordsOf(m, ctx.pdpt), Entry(sp.codePd, P_W_U), Entry(sp.stackPd, P_W_U));
    SameWith(m[sp.codePd].words, WordsOf(m, ctx.pd), 2, Entry(sp.codePt, P_W_U));
    SameWith(m[sp.stackPd].words, Blank(), 511, Entry(sp.stackPt, P_W_U));
    CodeOverCode(m[sp.codePt].words, sp, before, c, flags, count);
    SameWith(m[sp.stackPt].words, Blank(), 511, Entry(sp.stack, P_W_U));
  }

  /** Loading an image into a built space and wiring it again is installing the image. */
  lemma SecondWiring(m: Memory, n: Memory, ctx: Context, sp: Space, before: seq<nat>, c: nat, flags: seq<nat>,
      count: nat, pages: seq<seq<nat>>)
    requires Built(m, ctx, sp, before, c) && c <= count <= MAX_PAGES && count <= |flags| && |pages| == MAX_PAGES
    requires IsTable(m, ctx.pml4) && IsTable(m, ctx.pdpt) && IsTable(m, ctx.pd) && Separate(ctx, sp)
    requires n.Keys == m.Keys && forall f :: f in m && f !in sp.code ==> n[f] == m[f]
    requires |sp.code| == MAX_PAGES && forall k :: 0 <= k < MAX_PAGES ==>
      sp.code[k] in n && n[sp.code[k]] == Data(pages[k])
    requires sp.stack in m && m[sp.stack] == Data(ZeroPage())
    ensures Wired(n, sp, flags, count) == Installed(m, ctx, sp, flags, count, pages)
  {
    hide Wired, Installed, Entry, CodeTable, CodeWords, FramesOf, Separate, WithWord, Blank, ZeroPage, CodeWord;
    BuiltWords(m, ctx, sp, before, c, flags, count);
    assert Prepared(m, n, ctx, sp, flags, count, pages) by {
      hide Built;
      assert AllTables(m, sp) by { BuiltTables(m, ctx, sp, before, c); }
      FramesListed(sp);
      SeparateTables(ctx, sp);
      SeparateStack(ctx, sp);
      forall f | f in FramesOf(sp) ensures f in m {
        FrameCases(sp, f);
      }
    }
    PreparedInstalled(m, n, ctx, sp, flags, count, pages);
  }

  lemma BuiltTables(m: Memory, ctx: Context, sp: Space, before: seq<nat>, c: nat)
    requires Built(m, ctx, sp, before, c)
    ensures AllTables(m, sp)
  {
  }

  lemma SeparateStack(ctx: Context, sp: Space)
    requires Separate(ctx, sp)
    ensures sp.stack !in sp.code
  {
    SeparateFields(ctx, sp);
  }
}
