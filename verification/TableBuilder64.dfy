/** Building the kernel's page tables out of the page allocator. */
module TableBuilder64 {
  import opened MachineWords
  import opened Wrappers
  import Finite
  import opened Paging64
  import opened AddressSpace64
  import opened SpaceInstall64
  import opened PagingBuilder64
  import opened PageStack64
  import Pmm64

  const PAGES: nat := 16

  function TablesAt(p: seq<nat>): Tables
    requires |p| == PAGES
  {
    Tables(p[0], p[1], p[2], p[3], p[4], p[5], p[6], p[7], p[8], p[9], p[10], p[11], p[12], p[13..15], p[15])
  }

  /** What each of the sixteen pages holds in the end; the two code pages hold the embedded
      first program. */
  function Contents(t: Tables, plan: Plan, image: seq<seq<nat>>): (fs: seq<Frame>)
    requires |image| == 2
    ensures |fs| == PAGES
  {
    [Table(Pml4Words(t)), Table(PdptWords(t)), Table(PdWords(t)),
     Table(One(0, Entry(t.directPd, P_W))), Table(HugeWords()),
     Table(ScreenPdptWords(t, plan)), Table(ScreenPdWords(plan)),
     Table(One(Index3(KernelVirtual(plan)), Entry(t.kernelPd, P_W))),
     Table(One(Index2(KernelVirtual(plan)), Entry(t.kernelPt, P_W))),
     Table(KernelPtWords(plan)), Table(CodePtWords(t, plan)),
     Table(One(511, Entry(t.stackPt, P_W_U))), Table(One(511, Entry(t.stack, P_W_U))),
     Data(image[0]), Data(image[1]), Data(ZeroPage())]
  }

  function WriteAll(mem: Memory, pages: seq<nat>, frames: seq<Frame>): Memory
    requires |pages| == |frames|
    decreases |pages|
  {
    if pages == [] then mem
      else WriteAll(mem, pages[..|pages| - 1], frames[..|pages| - 1])[pages[|pages| - 1] := frames[|pages| - 1]]
  }

  lemma {:induction false} WrittenFrames(mem: Memory, pages: seq<nat>, frames: seq<Frame>)
    requires |pages| == |frames| && Finite.NoDup(pages)
    ensures var m := WriteAll(mem, pages, frames);
      && (forall i :: 0 <= i < |pages| ==> pages[i] in m && m[pages[i]] == frames[i])
      && (forall f :: f !in pages ==> (f in mem <==> f in m) && (f in mem ==> m[f] == mem[f]))
    decreases |pages|
  {
    if pages != [] {
      var k := |pages| - 1;
      WrittenFrames(mem, pages[..k], frames[..k]);
      var m0 := WriteAll(mem, pages[..k], frames[..k]);
      forall i | 0 <= i < k ensures pages[i] in m0 && m0[pages[i]] == frames[i] {
        assert pages[..k][i] == pages[i] && frames[..k][i] == frames[i];
      }
    }
  }

  lemma WordsSized(t: Tables, plan: Plan)
    ensures |Pml4Words(t)| == WORDS && |PdptWords(t)| == WORDS && |PdWords(t)| == WORDS && |HugeWords()| == WORDS
    ensures |ScreenPdptWords(t, plan)| == WORDS && |ScreenPdWords(plan)| == WORDS && |KernelPtWords(plan)| == WORDS
      && |CodePtWords(t, plan)| == WORDS
    ensures forall i, w :: 0 <= i < WORDS ==> |One(i, w)| == WORDS
  {
    hide Entry, HugeWord, ScreenPages, ScreenBase, KernelPages;
  }

  lemma ContentsInPlace(m: Memory, pages: seq<nat>, plan: Plan, image: seq<seq<nat>>)
    requires |pages| == PAGES && |image| == 2
    requires forall i :: 0 <= i < PAGES ==> pages[i] in m && m[pages[i]] == Contents(TablesAt(pages), plan, image)[i]
    ensures InPlace(m, TablesAt(pages), plan)
  {
    hide Pml4Words, PdptWords, PdWords, HugeWords, ScreenPdptWords, ScreenPdWords, KernelPtWords, CodePtWords, One,
      Entry, Index2, Index3, KernelVirtual, ZeroPage;
    var t := TablesAt(pages);
    WordsSized(t, plan);
    assert m[pages[0]] == Table(Pml4Words(t)) && m[pages[1]] == Table(PdptWords(t)) && m[pages[2]] == Table(PdWords(t));
    assert m[pages[3]] == Table(One(0, Entry(t.directPd, P_W))) && m[pages[4]] == Table(HugeWords());
    assert m[pages[5]] == Table(ScreenPdptWords(t, plan)) && m[pages[6]] == Table(ScreenPdWords(plan));
    assert m[pages[9]] == Table(KernelPtWords(plan)) && m[pages[10]] == Table(CodePtWords(t, plan));
    assert m[pages[7]] == Table(One(Index3(KernelVirtual(plan)), Entry(t.kernelPd, P_W)));
    assert m[pages[8]] == Table(One(Index2(KernelVirtual(plan)), Entry(t.kernelPt, P_W)));
    assert m[pages[11]] == Table(One(511, Entry(t.stackPt, P_W_U)))
      && m[pages[12]] == Table(One(511, Entry(t.stack, P_W_U)));
  }

  // ----- taking sixteen pages, or none

  /** Pages are taken one by one; at the first failure those taken are given back. */
  function TakeAll(p: Pmm64.State, n: nat, taken: seq<nat>): (r: (Pmm64.State, Option<seq<nat>>))
    ensures r.1.Some? ==> |r.1.value| == |taken| + n
    decreases n
  {
    if n == 0 then (p, Some(taken))
    else
      var a := Pmm64.Alloc(p);
      if a.page == 0 then (Pmm64.FreeAll(a.state, taken), None) else TakeAll(a.state, n - 1, taken + [a.page])
  }

  /** It succeeds exactly when there are enough pages; failing, it restores the free set. */
  lemma {:induction false} TakeAllSplits(p: Pmm64.State, held: set<nat>, pool: set<nat>, n: nat, taken: seq<nat>)
    requires Pmm64.Took(p, held, pool, taken) && 0 !in taken
    ensures TakeAll(p, n, taken).1.Some? <==> |p.stack| >= n
    ensures TakeAll(p, n, taken).1.Some? ==>
      Pmm64.Took(TakeAll(p, n, taken).0, held, pool, TakeAll(p, n, taken).1.value) && 0 !in TakeAll(p, n, taken).1.value
    ensures TakeAll(p, n, taken).1.None? ==> Pmm64.Splits(TakeAll(p, n, taken).0, held, pool)
    decreases n
  {
    hide Pmm64.Splits, Pmm64.Got, Pmm64.Distinct, Pmm64.Alloc, Pmm64.FreeAll;
    if n > 0 {
      var a := Pmm64.Alloc(p);
      var now := held + Pmm64.Got(taken);
      Pmm64.AllocSplits(p, now, pool);
      Pmm64.AllocPops(p, now, pool);
      if a.page == 0 {
        Pmm64.FreeAllSplits(p, now, pool, taken);
        assert now - Pmm64.Got(taken) == held;
      } else {
        Pmm64.TookSnoc(p, a.state, held, pool, taken, a.page);
        TakeAllSplits(a.state, held, pool, n - 1, taken + [a.page]);
      }
    }
  }

  // ----- the builder as it runs

  /** A table being filled. */
  method FillHuge(words: array<nat>, base: nat, n: nat)
    requires words.Length == WORDS && n <= WORDS
    modifies words
    ensures words[..] ==
      seq(WORDS, i requires 0 <= i < WORDS => if i < n then base + HugeWord(i) else old(words[..])[i])
  {
    hide HugeWord;
    for i := 0 to n
      invariant forall k :: 0 <= k < WORDS ==> words[k] == if k < i then base + HugeWord(k) else old(words[k])
    {
      words[i] := base + HugeWord(i);
    }
  }

  method FillKernel(words: array<nat>, plan: Plan)
    requires words.Length == WORDS && words[..] == Blank()
    modifies words
    ensures words[..] == KernelPtWords(plan)
  {
    hide Entry, KernelPages;
    var n := KernelPages(plan);
    assert forall k :: 0 <= k < WORDS ==> words[..][k] == 0;
    assert n <= WORDS by { KernelPagesBound(plan); }
    for i := 0 to n
      invariant forall k :: 0 <= k < WORDS ==> words[k] == if k < i then Entry(plan.kernelStart + k * PAGE, P_W) else 0
    {
      words[i] := Entry(plan.kernelStart + i * PAGE, P_W);
    }
  }

  lemma KernelPagesBound(plan: Plan)
    ensures KernelPages(plan) <= WORDS
  {
  }

  method FillCode(words: array<nat>, t: Tables, plan: Plan)
    requires words.Length == WORDS && words[..] == Blank() && plan.imagePages <= |t.code| == 2
    modifies words
    ensures words[..] == CodePtWords(t, plan)
  {
    hide Entry;
    assert forall k :: 0 <= k < WORDS ==> words[..][k] == 0;
    for i := 0 to plan.imagePages
      invariant forall k :: 0 <= k < WORDS ==> words[k] == if k < i then Entry(t.code[k], P_U) else 0
    {
      words[i] := Entry(t.code[i], P_U);
    }
  }

  class TableBuilder {
    const stack: PageStack
    var mem: Memory

    constructor (pages: PageStack, memory: Memory)
      ensures stack == pages && mem == memory
    {
      stack, mem := pages, memory;
    }

    /** `allocate_table` and `allocate_page` sixteen times, with `rollback_allocated_pages`. */
    method TakePages() returns (r: Option<seq<nat>>)
      requires stack.Valid()
      modifies stack`count, stack.pages
      ensures stack.Valid() && (stack.Snapshot(), r) == TakeAll(old(stack.Snapshot()), PAGES, [])
    {
      hide Pmm64.Alloc, Pmm64.Free;
      var taken: seq<nat> := [];
      ghost var start := stack.Snapshot();
      for k := 0 to PAGES
        invariant stack.Valid() && |taken| == k
          && TakeAll(start, PAGES, []) == TakeAll(stack.Snapshot(), PAGES - k, taken)
      {
        ghost var before := stack.Snapshot();
        var page := stack.AllocPage();
        if page == 0 {
          ghost var after := stack.Snapshot();
          for j := 0 to |taken|
            invariant stack.Valid() && Pmm64.FreeAll(stack.Snapshot(), taken[j..]) == Pmm64.FreeAll(after, taken)
          {
            assert taken[j..][1..] == taken[j + 1..];
            var _ := stack.FreePage(taken[j]);
          }
          return None;
        }
        taken := taken + [page];
      }
      return Some(taken);
    }

    /** The table construction of `x86_64_paging_builder_init`: all thirteen tables, or nothing. */
    method Build(plan: Plan, image: seq<seq<nat>>) returns (r: Option<Tables>)
      requires stack.Valid() && |image| == 2 && plan.imagePages <= 2
      modifies this`mem, stack`count, stack.pages
      ensures stack.Valid()
      ensures var taken := TakeAll(old(stack.Snapshot()), PAGES, []);
        && stack.Snapshot() == taken.0
        && match taken.1
           case None => r == None && mem == old(mem)
           case Some(pages) =>
             r == Some(TablesAt(pages)) && mem == WriteAll(old(mem), pages, Contents(TablesAt(pages), plan, image))
    {
      hide TakeAll, WriteAll, Pml4Words, PdptWords, PdWords, ScreenPdptWords, ScreenPdWords, One, Entry, Index2, Index3,
        KernelVirtual, ZeroPage, HugeWords, KernelPtWords, CodePtWords, TablesAt;
      var pages := TakePages();
      if pages.None? {
        return None;
      }
      var t := TablesAt(pages.value);
      assert |t.code| == 2 by { CodeCount(pages.value); }
      var tables := FillTables(t, plan);
      var frames := tables + [Data(image[0]), Data(image[1]), Data(ZeroPage())];
      assert frames == Contents(t, plan, image);
      ghost var before := mem;
      WriteNone(mem);
      assert pages.value[..0] == [] && frames[..0] == [];
      for i := 0 to PAGES
        modifies `mem
        invariant mem == WriteAll(before, pages.value[..i], frames[..i])
      {
        assert pages.value[..i + 1][..i] == pages.value[..i] && frames[..i + 1][..i] == frames[..i];
        WriteOne(before, pages.value, frames, i);
        mem := mem[pages.value[i] := frames[i]];
      }
      assert pages.value[..PAGES] == pages.value && frames[..PAGES] == frames;
      return Some(t);
    }
  }

  lemma CodeCount(pages: seq<nat>)
    requires |pages| == PAGES
    ensures |TablesAt(pages).code| == 2
  {
  }

  lemma WriteNone(mem: Memory)
    ensures WriteAll(mem, [], []) == mem
  {
  }

  lemma WriteOne(mem: Memory, pages: seq<nat>, frames: seq<Frame>, i: nat)
    requires i < |pages| == |frames|
    ensures WriteAll(mem, pages[..i + 1], frames[..i + 1]) ==
      WriteAll(mem, pages[..i], frames[..i])[pages[i] := frames[i]]
  {
    assert pages[..i + 1][..i] == pages[..i] && frames[..i + 1][..i] == frames[..i];
  }

  method HugeTable() returns (words: seq<nat>)
    ensures words == HugeWords()
  {
    hide HugeWord;
    var table := new nat[WORDS](_ => 0);
    FillHuge(table, 0, WORDS);
    words := table[..];
  }

  method KernelTable(plan: Plan) returns (words: seq<nat>)
    ensures words == KernelPtWords(plan)
  {
    hide KernelPtWords;
    var table := new nat[WORDS](_ => 0);
    assert table[..] == Blank();
    FillKernel(table, plan);
    words := table[..];
  }

  method CodeTableOf(t: Tables, plan: Plan) returns (words: seq<nat>)
    requires plan.imagePages <= |t.code| == 2
    ensures words == CodePtWords(t, plan)
  {
    hide CodePtWords;
    var table := new nat[WORDS](_ => 0);
    assert table[..] == Blank();
    FillCode(table, t, plan);
    words := table[..];
  }

  method ScreenTable(plan: Plan) returns (words: seq<nat>)
    ensures words == ScreenPdWords(plan)
  {
    hide HugeWord, ScreenPages, ScreenBase;
    var table := new nat[WORDS](_ => 0);
    assert table[..] == Blank();
    if plan.screen.Some? && ScreenFits(plan.screen.value) {
      FillHuge(table, ScreenBase(plan.screen.value), ScreenPages(plan.screen.value));
    }
    words := table[..];
  }

  /** The thirteen tables. */
  method FillTables(t: Tables, plan: Plan) returns (frames: seq<Frame>)
    requires |t.code| == 2 && plan.imagePages <= 2
    ensures frames == [Table(Pml4Words(t)), Table(PdptWords(t)), Table(PdWords(t)),
      Table(One(0, Entry(t.directPd, P_W))), Table(HugeWords()),
      Table(ScreenPdptWords(t, plan)), Table(ScreenPdWords(plan)),
      Table(One(Index3(KernelVirtual(plan)), Entry(t.kernelPd, P_W))),
      Table(One(Index2(KernelVirtual(plan)), Entry(t.kernelPt, P_W))),
      Table(KernelPtWords(plan)), Table(CodePtWords(t, plan)),
      Table(One(511, Entry(t.stackPt, P_W_U))), Table(One(511, Entry(t.stack, P_W_U)))]
  {
    hide Entry, KernelPtWords, CodePtWords, ScreenPdWords, ScreenPdptWords, HugeWords, Index2, Index3, KernelVirtual,
      One, Pml4Words, PdptWords, WithWord;
    assert |HugeWords()| == WORDS by { WordsSized(t, plan); }
    var identity := HugeTable();
    identity := WithWord(identity, 2, Entry(t.codePt, P_W_U));
    var direct := HugeTable();
    var kernel := KernelTable(plan);
    var code := CodeTableOf(t, plan);
    var screen := ScreenTable(plan);
    frames := [Table(Pml4Words(t)), Table(PdptWords(t)), Table(identity), Table(One(0, Entry(t.directPd, P_W))),
      Table(direct),
      Table(ScreenPdptWords(t, plan)), Table(screen), Table(One(Index3(KernelVirtual(plan)), Entry(t.kernelPd, P_W))),
      Table(One(Index2(KernelVirtual(plan)), Entry(t.kernelPt, P_W))), Table(kernel), Table(code),
      Table(One(511, Entry(t.stackPt, P_W_U))), Table(One(511, Entry(t.stack, P_W_U)))];
  }
}
