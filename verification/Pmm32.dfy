/** The i386 physical page allocator: a bump pointer over one boot region plus a bounded
    stack of returned pages. Addresses are 32-bit and the bump comparison wraps. */
module Pmm32 {
  import opened MachineWords
  import opened Finite

  const MAX_FREE: nat := 1024
  const ONE_MIB: nat := 0x10_0000

  /** Snapshot of `pmm_stats` and of the used part of `free_stack`. */
  datatype State = State(start: nat, end: nat, next: nat, outstanding: nat, stack: seq<nat>)

  datatype Outcome = Outcome(state: State, page: nat)

  /** `pmm_alloc_page`; page 0 is the failure result. */
  function Alloc(p: State): Outcome {
    if |p.stack| > 0 then
      Outcome(p.(stack := p.stack[..|p.stack| - 1], outstanding := p.outstanding + 1), p.stack[|p.stack| - 1])
    else if p.next == 0 then Outcome(p, 0)
    else if (p.next + PAGE) % U32 > p.end then Outcome(p, 0)
    else Outcome(p.(next := (p.next + PAGE) % U32, outstanding := p.outstanding + 1), p.next)
  }

  /** The checks of `pmm_free_page`, in order. */
  predicate Accepts(p: State, page: nat) {
    && page != 0
    && page % PAGE == 0
    && p.start <= page < p.end
    && page < p.next
    && page !in p.stack
    && |p.stack| < MAX_FREE
  }

  /** `pmm_free_page`. */
  function Free(p: State, page: nat): State {
    if !Accepts(p, page) then p
    else p.(stack := p.stack + [page], outstanding := if p.outstanding > 0 then p.outstanding - 1 else p.outstanding)
  }

  /** The allocator as `pmm_initialize` leaves it, when no region was usable or when
      one was; the bump pointer never reaches the last page of the address space. */
  ghost predicate Bounded(p: State) {
    || (p.start == 0 && p.end == 0 && p.next == 0)
    || (ONE_MIB <= p.start <= p.next <= p.end < 0xFFFF_F000)
  }

  /** Frames handed past `allocation_start` that are not on the free stack. */
  ghost function Held(p: State): set<nat>
    requires p.start <= p.next
  {
    Pages(p.start, (p.next - p.start) / PAGE) - Elements(p.stack)
  }

  ghost predicate Valid(p: State) {
    && Bounded(p)
    && p.start % PAGE == 0 && p.next % PAGE == 0
    && |p.stack| <= MAX_FREE
    && NoDup(p.stack)
    && (forall i :: 0 <= i < |p.stack| ==> p.stack[i] % PAGE == 0 && p.start <= p.stack[i] < p.next)
    && p.outstanding + |p.stack| == (p.next - p.start) / PAGE
  }

  /** A frame the allocator may still hand out. */
  ghost predicate Available(p: State, page: nat) {
    page in p.stack || p.next <= page
  }

  lemma InPages(lo: nat, n: nat, page: nat)
    requires lo % PAGE == 0
    ensures page in Pages(lo, n) <==> lo <= page < lo + n * PAGE && page % PAGE == 0
  {
    if lo <= page && page % PAGE == 0 {
      assert page == lo + ((page - lo) / PAGE) * PAGE;
    }
  }

  lemma InHeld(p: State, page: nat)
    requires Valid(p)
    ensures page in Held(p) <==> p.start <= page < p.next && page % PAGE == 0 && page !in p.stack
  {
    InPages(p.start, (p.next - p.start) / PAGE, page);
  }

  /** The counter `allocated_pages` is the number of outstanding frames. */
  lemma AllocatedCountsHeld(p: State)
    requires Valid(p)
    ensures |Held(p)| == p.outstanding
  {
    var n := (p.next - p.start) / PAGE;
    PagesCardinality(p.start, n);
    NoDupCardinality(p.stack);
    forall x | x in Elements(p.stack) ensures x in Pages(p.start, n) {
      InPages(p.start, n, x);
    }
    SubsetCardinality(Elements(p.stack), Pages(p.start, n));
  }

  lemma PopValid(p: State)
    requires Valid(p) && p.stack != []
    ensures Valid(Alloc(p).state)
    ensures p.start <= Alloc(p).page && Alloc(p).page + PAGE <= p.next && Alloc(p).page % PAGE == 0
    ensures Alloc(p).page in p.stack && Alloc(p).page !in Alloc(p).state.stack
  {
    var k := |p.stack| - 1;
    assert p.stack[k] in p.stack;
  }

  lemma BumpValid(p: State)
    requires Valid(p) && p.stack == [] && p.next != 0 && p.next + PAGE <= p.end
    ensures Alloc(p) == Outcome(p.(next := p.next + PAGE, outstanding := p.outstanding + 1), p.next)
    ensures Valid(Alloc(p).state)
  {
    assert (p.next + PAGE - p.start) / PAGE == (p.next - p.start) / PAGE + 1;
  }

  lemma AllocValid(p: State)
    requires Valid(p)
    ensures var r := Alloc(p);
      && Valid(r.state)
      && r.state.start == p.start && r.state.end == p.end
      && (r.page == 0 ==> r.state == p && p.stack == [] && (p.start == 0 || p.next + PAGE > p.end))
      && (r.page != 0 ==> r.page % PAGE == 0 && p.start <= r.page && r.page + PAGE <= p.end)
      && (r.page != 0 ==> Available(p, r.page) && !Available(r.state, r.page))
  {
    if p.stack != [] {
      PopValid(p);
    } else if p.next != 0 && p.next + PAGE <= p.end {
      BumpValid(p);
    }
  }

  /** How many frames are left: those returned and those never handed out. */
  function Supply(p: State): nat
    requires p.next <= p.end
  {
    |p.stack| + (p.end - p.next) / PAGE
  }

  /** Allocation fails exactly when no frame is left, and otherwise uses up one. */
  lemma AllocExactly(p: State)
    requires Valid(p)
    ensures p.next <= p.end && Alloc(p).state.next <= p.end && Alloc(p).state.end == p.end
    ensures Alloc(p).page != 0 <==> Supply(p) > 0
    ensures Supply(p) > 0 ==> Supply(Alloc(p).state) == Supply(p) - 1
  {
    AllocValid(p);
    if p.stack == [] && p.next != 0 && p.next + PAGE <= p.end {
      BumpValid(p);
      assert (p.end - (p.next + PAGE)) / PAGE == (p.end - p.next) / PAGE - 1;
    }
  }

  /** Allocation returns either nothing, with nothing changed, or a frame nobody holds. */
  lemma AllocFresh(p: State)
    requires Valid(p)
    ensures var r := Alloc(p);
      && Valid(r.state)
      && r.state.start == p.start && r.state.end == p.end
      && (r.page == 0 ==> r.state == p && p.stack == [])
      && (r.page != 0 ==> r.page !in Held(p) && Held(r.state) == Held(p) + {r.page})
      && (r.page != 0 ==> p.start <= r.page && r.page + PAGE <= p.end)
  {
    AllocValid(p);
    var r := Alloc(p);
    if r.page != 0 {
      forall f ensures f in Held(r.state) <==> f in Held(p) || f == r.page {
        InHeld(p, f);
        InHeld(r.state, f);
        if p.stack != [] {
          assert p.stack == r.state.stack + [r.page];
        }
      }
      InHeld(p, r.page);
    }
  }

  /** Freeing is total: an argument that is not an outstanding frame changes nothing,
      an outstanding one is returned, and the counter never saturates. */
  lemma FreeExact(p: State, page: nat)
    requires Valid(p)
    ensures var q := Free(p, page);
      && Valid(q)
      && (Accepts(p, page) <==> page in Held(p) && |p.stack| < MAX_FREE)
      && (Accepts(p, page) ==> Held(q) == Held(p) - {page} && q.outstanding == p.outstanding - 1)
      && (!Accepts(p, page) ==> q == p)
  {
    InHeld(p, page);
    if Accepts(p, page) {
      AllocatedCountsHeld(p);
      assert page in Held(p);
      var q := Free(p, page);
      assert p.outstanding > 0;
      forall f ensures f in Held(q) <==> f in Held(p) && f != page {
        InHeld(p, f);
        InHeld(q, f);
      }
    }
  }

  /** The frame freed last is handed out next, and then everything is as before the free. */
  lemma AllocUndoesFree(p: State, page: nat)
    requires Valid(p) && page in Held(p) && |p.stack| < MAX_FREE
    ensures Alloc(Free(p, page)) == Outcome(p, page)
  {
    FreeExact(p, page);
    assert (p.stack + [page])[..|p.stack|] == p.stack;
  }

  datatype Op = DoAlloc | DoFree(page: nat)

  function Step(p: State, op: Op): State {
    match op
    case DoAlloc => Alloc(p).state
    case DoFree(page) => Free(p, page)
  }

  function Run(p: State, ops: seq<Op>): State
    decreases |ops|
  {
    if ops == [] then p else Run(Step(p, ops[0]), ops[1..])
  }

  /** Whatever callers free, the allocator stays consistent. */
  lemma {:induction false} RunValid(p: State, ops: seq<Op>)
    requires Valid(p)
    ensures Valid(Run(p, ops))
    ensures |Held(Run(p, ops))| == Run(p, ops).outstanding
    decreases |ops|
  {
    if ops == [] {
      AllocatedCountsHeld(p);
    } else {
      AllocFresh(p);
      if ops[0].DoFree? {
        FreeExact(p, ops[0].page);
      }
      RunValid(Step(p, ops[0]), ops[1..]);
    }
  }

  lemma {:induction false} StaysHeld(p: State, ops: seq<Op>, page: nat)
    requires Valid(p) && page in Held(p)
    requires DoFree(page) !in ops
    ensures Valid(Run(p, ops)) && page in Held(Run(p, ops))
    decreases |ops|
  {
    if ops != [] {
      AllocFresh(p);
      if ops[0].DoFree? {
        FreeExact(p, ops[0].page);
      }
      StaysHeld(Step(p, ops[0]), ops[1..], page);
    }
  }

  /** Over every run, a frame is handed out a second time only after somebody asked to
      free it. */
  lemma NoDoubleHandOut(p: State, ops: seq<Op>)
    requires Valid(p)
    ensures var first := Alloc(p);
      first.page != 0 && DoFree(first.page) !in ops ==>
        Alloc(Run(first.state, ops)).page != first.page
  {
    var first := Alloc(p);
    AllocFresh(p);
    if first.page != 0 && DoFree(first.page) !in ops {
      StaysHeld(first.state, ops, first.page);
      AllocFresh(Run(first.state, ops));
    }
  }

  function Fresh(start: nat, end: nat): State {
    State(start, end, start, 0, [])
  }

  function AllocTimes(p: State, n: nat): State {
    if n == 0 then p else Alloc(AllocTimes(p, n - 1)).state
  }

  /** Every page that repeated allocation returns ends inside the boot region. */
  ghost predicate StaysInside(p: State) {
    forall n: nat :: var r := Alloc(AllocTimes(p, n)); r.page == 0 || r.page + PAGE <= p.end
  }

  lemma {:induction false} BumpReaches(start: nat, end: nat, n: nat)
    requires ONE_MIB <= start <= end && start % PAGE == 0
    requires start + n * PAGE <= end && start + n * PAGE < U32
    ensures AllocTimes(Fresh(start, end), n) == State(start, end, start + n * PAGE, n, [])
  {
    if n > 0 {
      BumpReaches(start, end, n - 1);
    }
  }

  lemma {:induction false} AllocTimesValid(p: State, n: nat)
    requires Valid(p)
    ensures Valid(AllocTimes(p, n)) && AllocTimes(p, n).end == p.end
  {
    if n > 0 {
      AllocTimesValid(p, n - 1);
      AllocFresh(AllocTimes(p, n - 1));
    }
  }

  /** The bump comparison wraps at 2^32: allocation stays inside the region exactly when
      the region ends below the last page of the address space. */
  lemma StaysInsideExactly(start: nat, end: nat)
    requires ONE_MIB <= start <= end < U32 && start % PAGE == 0
    ensures StaysInside(Fresh(start, end)) <==> end < 0xFFFF_F000
  {
    var p := Fresh(start, end);
    if end < 0xFFFF_F000 {
      forall n: nat ensures var r := Alloc(AllocTimes(p, n)); r.page == 0 || r.page + PAGE <= p.end {
        AllocTimesValid(p, n);
        AllocFresh(AllocTimes(p, n));
      }
    } else {
      var n := (0xFFFF_F000 - start) / PAGE;
      BumpReaches(start, end, n);
      var r := Alloc(AllocTimes(p, n));
      assert r.page == 0xFFFF_F000;
    }
  }

  class FrameAllocator {
    var start: nat
    var end: nat
    var next: nat
    var outstanding: nat
    var count: nat
    const freeStack: array<nat>

    ghost predicate Shaped()
      reads this
    {
      freeStack.Length == MAX_FREE && count <= MAX_FREE
    }

    ghost function Snapshot(): State
      requires Shaped()
      reads this, freeStack
    {
      State(start, end, next, outstanding, freeStack[..count])
    }

    constructor (allocationStart: nat, allocationEnd: nat)
      ensures Shaped() && fresh(freeStack)
      ensures Snapshot() == Fresh(allocationStart, allocationEnd)
    {
      start, end, next, outstanding, count := allocationStart, allocationEnd, allocationStart, 0, 0;
      freeStack := new nat[MAX_FREE];
    }

    method AllocPage() returns (page: nat)
      requires Shaped()
      modifies this
      ensures Shaped()
      ensures Snapshot() == Alloc(old(Snapshot())).state
      ensures page == Alloc(old(Snapshot())).page
    {
      if count > 0 {
        count := count - 1;
        page := freeStack[count];
        outstanding := outstanding + 1;
        return;
      }
      if next == 0 || (next + PAGE) % U32 > end {
        return 0;
      }
      page := next;
      next := (next + PAGE) % U32;
      outstanding := outstanding + 1;
    }

    method FreeStackContains(page: nat) returns (found: bool)
      requires Shaped()
      ensures found == (page in Snapshot().stack)
    {
      for i := 0 to count
        invariant page !in freeStack[..i]
      {
        if freeStack[i] == page {
          return true;
        }
      }
      return false;
    }

    method FreePage(page: nat)
      requires Shaped()
      modifies this, freeStack
      ensures Shaped()
      ensures Snapshot() == Free(old(Snapshot()), page)
    {
      if page == 0 || page % PAGE != 0 || page < start || page >= end || page >= next {
        return;
      }
      var duplicate := FreeStackContains(page);
      if duplicate || count >= MAX_FREE {
        return;
      }
      freeStack[count] := page;
      count := count + 1;
      if outstanding > 0 {
        outstanding := outstanding - 1;
      }
      assert freeStack[..count] == old(freeStack[..count]) + [page];
    }
  }
}
