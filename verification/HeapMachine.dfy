/** The kernel heap over its page tables and frames: `kmalloc`, `kfree` and growth as
    functions of the whole memory state, and what every run of them keeps. */
module HeapMachine {
  import opened MachineWords
  import opened Wrappers
  import P = Pmm32
  import V = Vmm32
  import B = HeapBlocks
  import G = HeapGrowth

  const START: nat := 0xC100_0000
  const TOP: nat := 0xC200_0000
  const FIRST_PAGE: nat := START / PAGE
  const TOP_PAGE: nat := TOP / PAGE
  const MAX_GROW: nat := 16

  /** `next` is `next_virtual_page`: the heap owns the pages of [START, next). */
  datatype State = State(initialized: bool, blocks: seq<B.Block>, next: nat, vmm: V.State, pmm: P.State)

  datatype Outcome = Outcome(state: State, pointer: nat)

  /** `align_up(value, 8)` and `align_up(value, 4096)` in 32-bit arithmetic. */
  function AlignRequest(value: nat): nat { (value + 7) % U32 / 8 * 8 }
  function AlignToPage(value: nat): nat { (value + 4095) % U32 / 4096 * 4096 }

  /** Every claimed heap page is mapped writable and supervisor-only, to a frame of its own
      that is held and is not a page table; the unclaimed part of the range is unmapped. */
  ghost predicate Backed(w: G.View, next: nat) {
    && (forall k :: FIRST_PAGE <= k < next / PAGE ==> PageBacked(w, k))
    && (forall j, k :: FIRST_PAGE <= j < k < next / PAGE ==> FramesDiffer(w, j, k))
    && (forall k :: next / PAGE <= k < TOP_PAGE ==> k !in w.mapping)
  }

  ghost predicate FramesDiffer(w: G.View, j: nat, k: nat) {
    j in w.mapping && k in w.mapping && w.mapping[j].frame != w.mapping[k].frame
  }

  ghost predicate PageBacked(w: G.View, k: nat) {
    && k in w.mapping && w.mapping[k].writable && !w.mapping[k].user
    && w.mapping[k].frame in w.held && w.mapping[k].frame !in w.tables
  }

  ghost predicate Valid(s: State) {
    && G.Ready(s.vmm, s.pmm)
    && START <= s.next <= TOP && s.next % PAGE == 0
    && B.Tiles(s.blocks, START, s.next)
    && B.Canonical(s.blocks)
    && Backed(G.ViewOf(s.vmm, s.pmm), s.next)
  }

  /** Pages `heap_grow` asks for; a wrapped computation counts as one page. */
  function PagesFor(minimum: nat): (n: nat)
    ensures n > 0
  {
    var n := AlignToPage((minimum + B.HEADER) % U32) / PAGE;
    if n == 0 then 1 else n
  }

  /** The page loop of `heap_grow` for `n` pages, rolled back on failure. */
  function Extend(v: V.State, p: P.State, next: nat, n: nat): G.Mapped
    requires G.Ready(v, p) && next + n * PAGE <= U32
  {
    G.RollbackPossible(v, p, next, n);
    var m := G.MapPages(v, p, next, n);
    if m.ok then m
    else
      var r := G.Rollback(m.vmm, m.pmm, next, m.frames);
      G.Mapped(r.0, r.1, [], false)
  }

  /** `heap_grow`. */
  function Grow(s: State, minimum: nat): (r: (State, bool))
    requires G.Ready(s.vmm, s.pmm) && START <= s.next <= TOP
    ensures r.1 ==> s.next < r.0.next <= TOP
    ensures r.0.initialized == s.initialized
  {
    var n := PagesFor(minimum);
    if n > MAX_GROW || s.next + n * PAGE > TOP then (s, false)
    else
      var m := Extend(s.vmm, s.pmm, s.next, n);
      if !m.ok then (s.(vmm := m.vmm, pmm := m.pmm), false)
      else (s.(blocks := B.Grow(s.blocks, s.next, n), next := s.next + n * PAGE, vmm := m.vmm, pmm := m.pmm), true)
  }

  lemma PageAfterGrowth(a: G.View, b: G.View, next: nat, frames: seq<nat>, k: nat)
    requires Backed(a, next) && G.Grew(a, b, next / PAGE, frames)
    requires FIRST_PAGE <= k < next / PAGE + |frames|
    ensures PageBacked(b, k)
    ensures k < next / PAGE ==> PageBacked(a, k) && b.mapping[k] == a.mapping[k]
    ensures k >= next / PAGE ==> b.mapping[k].frame == frames[k - next / PAGE] && b.mapping[k].frame !in a.held
  {
    var vp := next / PAGE;
    if k < vp {
      assert PageBacked(a, k);
      assert k !in G.Span(vp, |frames|);
    } else {
      assert k in G.Span(vp, |frames|);
      assert frames[k - vp] in frames;
    }
  }

  lemma BackedAfterGrowth(a: G.View, b: G.View, next: nat, n: nat, frames: seq<nat>)
    requires START <= next && next + n * PAGE <= TOP && |frames| == n
    requires Backed(a, next) && G.Grew(a, b, next / PAGE, frames)
    ensures Backed(b, next + n * PAGE)
  {
    var vp := next / PAGE;
    var end := (next + n * PAGE) / PAGE;
    assert end == vp + n;
    forall k | FIRST_PAGE <= k < end ensures PageBacked(b, k) {
      PageAfterGrowth(a, b, next, frames, k);
    }
    forall j, k | FIRST_PAGE <= j < k < end ensures FramesDiffer(b, j, k) {
      PageAfterGrowth(a, b, next, frames, j);
      PageAfterGrowth(a, b, next, frames, k);
      if k < vp {
        assert FramesDiffer(a, j, k);
      }
    }
    forall k | end <= k < TOP_PAGE ensures k !in b.mapping {
      assert k !in G.Span(vp, n);
    }
  }

  lemma BackedAfterFailure(a: G.View, b: G.View, next: nat)
    requires Backed(a, next) && G.OnlyTablesAdded(a, b)
    ensures Backed(b, next)
  {
    forall k | FIRST_PAGE <= k < next / PAGE ensures PageBacked(b, k) {
      assert PageBacked(a, k);
    }
    forall j, k | FIRST_PAGE <= j < k < next / PAGE ensures FramesDiffer(b, j, k) {
      assert FramesDiffer(a, j, k);
    }
  }

  lemma ExtendSucceeds(v: V.State, p: P.State, next: nat, n: nat)
    requires G.Ready(v, p) && START <= next && next + n * PAGE <= TOP
    requires Backed(G.ViewOf(v, p), next) && Extend(v, p, next, n).ok
    ensures var m := Extend(v, p, next, n);
      G.Ready(m.vmm, m.pmm) && Backed(G.ViewOf(m.vmm, m.pmm), next + n * PAGE)
      && G.Grew(G.ViewOf(v, p), G.ViewOf(m.vmm, m.pmm), next / PAGE, m.frames) && |m.frames| == n
  {
    hide G.Ready, G.ViewOf, G.Grew, Backed;
    G.MapPagesGrew(v, p, next, n);
    var m := Extend(v, p, next, n);
    BackedAfterGrowth(G.ViewOf(v, p), G.ViewOf(m.vmm, m.pmm), next, n, m.frames);
  }

  lemma ExtendFails(v: V.State, p: P.State, next: nat, n: nat)
    requires G.Ready(v, p) && START <= next && next + n * PAGE <= TOP && n <= MAX_GROW
    requires Backed(G.ViewOf(v, p), next) && !Extend(v, p, next, n).ok
    ensures var m := Extend(v, p, next, n);
      && G.Ready(m.vmm, m.pmm) && Backed(G.ViewOf(m.vmm, m.pmm), next)
      && G.OnlyTablesAdded(G.ViewOf(v, p), G.ViewOf(m.vmm, m.pmm))
  {
    hide G.Ready, G.ViewOf, G.OnlyTablesAdded;
    G.FailedGrowthUndone(v, p, next, n);
    var m := Extend(v, p, next, n);
    BackedAfterFailure(G.ViewOf(v, p), G.ViewOf(m.vmm, m.pmm), next);
  }

  lemma GrowSucceeds(s: State, minimum: nat)
    requires Valid(s) && Grow(s, minimum).1
    ensures var t, n := Grow(s, minimum).0, PagesFor(minimum);
      t.next == s.next + n * PAGE && t.blocks == B.Grow(s.blocks, s.next, n) && B.Live(t.blocks) == B.Live(s.blocks)
    ensures Valid(Grow(s, minimum).0)
  {
    hide G.Ready, G.ViewOf, Backed, B.Tiles, B.Canonical, B.Live, B.Grow, PagesFor, Extend;
    ExtendSucceeds(s.vmm, s.pmm, s.next, PagesFor(minimum));
    B.GrowKeeps(s.blocks, START, s.next, PagesFor(minimum));
  }

  lemma GrowFails(s: State, minimum: nat)
    requires Valid(s) && !Grow(s, minimum).1
    ensures Valid(Grow(s, minimum).0)
    ensures var t := Grow(s, minimum).0;
      t.blocks == s.blocks && t.next == s.next
      && G.OnlyTablesAdded(G.ViewOf(s.vmm, s.pmm), G.ViewOf(t.vmm, t.pmm))
  {
    hide G.Ready, G.ViewOf, Backed, B.Tiles, B.Canonical, PagesFor, Extend;
    var n := PagesFor(minimum);
    if n <= MAX_GROW && s.next + n * PAGE <= TOP {
      ExtendFails(s.vmm, s.pmm, s.next, n);
    }
  }

  /** Growth is all or nothing: it appends the pages asked for and coalesces, or it leaves
      blocks, range and every mapping as they were, keeping at most new page tables. */
  lemma GrowAllOrNothing(s: State, minimum: nat)
    requires Valid(s)
    ensures Valid(Grow(s, minimum).0)
    ensures var r := Grow(s, minimum);
      if r.1 then
        r.0.next == s.next + PagesFor(minimum) * PAGE
        && r.0.blocks == B.Grow(s.blocks, s.next, PagesFor(minimum))
        && B.Live(r.0.blocks) == B.Live(s.blocks)
      else
        r.0.blocks == s.blocks && r.0.next == s.next
        && G.OnlyTablesAdded(G.ViewOf(s.vmm, s.pmm), G.ViewOf(r.0.vmm, r.0.pmm))
  {
    hide G.Ready, G.ViewOf, G.OnlyTablesAdded, Backed, B.Tiles, B.Canonical, B.Live, B.Grow, PagesFor, Grow;
    if Grow(s, minimum).1 {
      GrowSucceeds(s, minimum);
    } else {
      GrowFails(s, minimum);
    }
  }

  // ----- when growth succeeds

  /** The pages a request needs with its header; a sum that wraps counts as one page. */
  function PagesNeeded(request: nat): nat {
    if request + B.HEADER + PAGE > U32 then 1 else (request + B.HEADER + PAGE - 1) / PAGE
  }

  lemma PagesForExactly(request: nat)
    requires request < U32
    ensures PagesFor(request) == PagesNeeded(request)
  {
    var x := (request + B.HEADER) % U32;
    if request + B.HEADER < U32 {
      assert x == request + B.HEADER;
      if x + 4095 >= U32 {
        assert (x + 4095) % U32 == x + 4095 - U32;
      }
    } else {
      assert x == request + B.HEADER - U32;
    }
  }

  /** The request needs at most sixteen pages, they fit the range, and the allocator has a
      frame for each of them and for each page table missing under them. */
  ghost predicate CanGrow(s: State, request: nat) {
    var n := PagesNeeded(request);
    && n <= MAX_GROW && s.next + n * PAGE <= TOP
    && s.pmm.next <= s.pmm.end && P.Supply(s.pmm) >= G.FramesNeeded(s.vmm, s.next, n)
  }

  /** Growth succeeds exactly then. */
  lemma GrowExactly(s: State, request: nat)
    requires Valid(s) && request < U32
    ensures G.Ready(s.vmm, s.pmm) && START <= s.next <= TOP
    ensures Grow(s, request).1 <==> CanGrow(s, request)
  {
    hide Valid, G.Ready, G.MapPages, G.Rollback, P.Supply, G.FramesNeeded, PagesFor, PagesNeeded;
    ValidParts(s);
    PagesForExactly(request);
    var n := PagesFor(request);
    if s.next + n * PAGE <= TOP {
      G.MapPagesExactly(s.vmm, s.pmm, s.next, n);
    }
  }

  lemma ValidParts(s: State)
    requires Valid(s)
    ensures G.Ready(s.vmm, s.pmm) && START <= s.next <= TOP && s.next % 8 == 0
    ensures B.Tiles(s.blocks, START, s.next) && B.Canonical(s.blocks)
  {
    hide G.Ready, B.Tiles, B.Canonical, Backed;
  }

  // ----- kmalloc and kfree

  /** `kmalloc`: take the first fitting block, else grow and start over. */
  function Kmalloc(s: State, size: nat): Outcome
    requires Valid(s)
    decreases TOP - s.next
  {
    if !s.initialized || size == 0 then Outcome(s, 0)
    else
      var request := AlignRequest(size);
      match B.FirstFit(s.blocks, request)
      case Some(i) => Outcome(s.(blocks := B.Take(s.blocks, i, request)), s.blocks[i].Payload())
      case None =>
        GrowAllOrNothing(s, request);
        var g := Grow(s, request);
        if !g.1 then Outcome(g.0, 0) else Kmalloc(g.0, request)
  }

  /** `heap_find_block_for_pointer`. */
  function Find(s: State, p: nat): Option<nat> {
    if p == 0 || !s.initialized || p < START + B.HEADER || p >= TOP then None
    else B.FindPayload(s.blocks, p)
  }

  /** `kfree`. */
  function Kfree(s: State, p: nat): State {
    match Find(s, p)
    case None => s
    case Some(i) => if !s.blocks[i].used then s else s.(blocks := B.Release(s.blocks, i))
  }

  /** Requests whose rounding wraps to zero. */
  predicate Wraps(size: nat) { AlignRequest(size) == 0 }

  /** A wrapped request does harm exactly when the lowest free block is big enough to split. */
  predicate Harmless(s: State, size: nat) {
    || size == 0
    || !s.initialized
    || !Wraps(size)
    || match B.FirstFit(s.blocks, 0)
       case None => true
       case Some(i) => s.blocks[i].size <= B.HEADER + B.MIN_SPLIT
  }

  lemma AlignFacts(size: nat)
    requires 0 < size < U32
    ensures Wraps(size) <==> size > 0xFFFF_FFF8
    ensures !Wraps(size) ==> size <= AlignRequest(size) < size + 8
    ensures AlignRequest(size) % 8 == 0 && AlignRequest(size) < U32
    ensures AlignRequest(AlignRequest(size)) == AlignRequest(size)
  {
  }

  /** The retry after growing asks for a rounded size, which no longer wraps. */
  lemma HarmlessRetry(s: State, size: nat)
    requires 0 < size < U32
    ensures Harmless(s, AlignRequest(size))
  {
    AlignFacts(size);
  }

  lemma TakeFirstFit(s: State, request: nat)
    requires Valid(s) && request > 0 && request % 8 == 0 && B.FirstFit(s.blocks, request).Some?
    ensures var i := B.FirstFit(s.blocks, request).value;
      var bs := B.Take(s.blocks, i, request);
      Valid(s.(blocks := bs)) && B.Gained(B.Live(s.blocks), B.Live(bs), s.blocks[i].Payload(), request)
  {
    hide G.Ready, G.ViewOf, Backed, B.Tiles, B.Canonical, B.Live, B.Take, B.Gained;
    var i := B.FirstFit(s.blocks, request).value;
    B.TakeKeeps(s.blocks, START, s.next, i, request);
    B.TakeGains(s.blocks, START, s.next, i, request);
  }

  /** For every request that does not wrap, `kmalloc` keeps the heap well formed; it either
      adds one live block holding the request or leaves the live blocks alone. */
  lemma {:induction false} KmallocCorrect(s: State, size: nat)
    requires Valid(s) && 0 < size < U32 && !Wraps(size)
    ensures var r := Kmalloc(s, size);
      && Valid(r.state) && r.state.initialized == s.initialized
      && (r.pointer == 0 ==> B.Live(r.state.blocks) == B.Live(s.blocks))
      && (r.pointer != 0 ==> B.Gained(B.Live(s.blocks), B.Live(r.state.blocks), r.pointer, size))
    decreases TOP - s.next
  {
    hide Valid, Grow, B.Gained, B.Live, B.Take, PagesFor;
    if s.initialized {
      AlignFacts(size);
      var request := AlignRequest(size);
      match B.FirstFit(s.blocks, request) {
        case Some(i) =>
          TakeFirstFit(s, request);
          B.GainedWeaken(B.Live(s.blocks), B.Live(B.Take(s.blocks, i, request)), s.blocks[i].Payload(), size, request);
        case None =>
          GrowFacts(s, request);
          var g := Grow(s, request);
          if g.1 {
            KmallocCorrect(g.0, request);
            var r := Kmalloc(g.0, request);
            if r.pointer != 0 {
              B.GainedWeaken(B.Live(s.blocks), B.Live(r.state.blocks), r.pointer, size, request);
            }
          }
      }
    }
  }

  lemma GrowFacts(s: State, request: nat)
    requires Valid(s)
    ensures G.Ready(s.vmm, s.pmm) && START <= s.next <= TOP
    ensures var g := Grow(s, request);
      && Valid(g.0) && B.Live(g.0.blocks) == B.Live(s.blocks) && g.0.initialized == s.initialized
      && (if g.1 then s.next < g.0.next <= TOP else g.0.next == s.next)
  {
    hide Backed, B.Tiles, B.Canonical, B.Grow, PagesFor, Grow;
    GrowAllOrNothing(s, request);
  }

  /** A rounded request of zero marks the lowest free block used at size zero, so the heap
      stays well formed exactly when that block is too small to split. */
  lemma KmallocWellFormedExactly(s: State, size: nat)
    requires Valid(s) && size < U32
    ensures Valid(Kmalloc(s, size).state) <==> Harmless(s, size)
  {
    hide G.Ready, G.ViewOf, Backed, B.Canonical, Grow, PagesFor;
    if s.initialized && size > 0 {
      AlignFacts(size);
      if !Wraps(size) {
        KmallocCorrect(s, size);
      } else {
        match B.FirstFit(s.blocks, 0) {
          case None => GrowAllOrNothing(s, 0);
          case Some(i) =>
            B.ZeroRequest(s.blocks, START, s.next, i);
            if s.blocks[i].size <= B.HEADER + B.MIN_SPLIT {
              TakeSmall(s, i);
            }
        }
      }
    }
  }

  lemma TakeSmall(s: State, i: nat)
    requires Valid(s) && i < |s.blocks| && i < B.LIMIT && !s.blocks[i].used
    requires s.blocks[i].size <= B.HEADER + B.MIN_SPLIT
    ensures B.Canonical(B.Take(s.blocks, i, 0))
  {
  }

  /** The state after `k` growths in a row, none of the states before having a fitting block
      within the walk. */
  ghost predicate GrownBy(s: State, t: State, request: nat, k: nat)
    requires Valid(s)
    decreases k
  {
    GrowFacts(s, request);
    if k == 0 then t == s
    else B.FirstFit(s.blocks, request).None? && Grow(s, request).1 && GrownBy(Grow(s, request).0, t, request, k - 1)
  }

  /** A free block of the size asked for, among those the walk visits. */
  predicate HasFit(bs: seq<B.Block>, request: nat) {
    exists i :: 0 <= i < |bs| && i < B.LIMIT && !bs[i].used && bs[i].size >= request
  }

  /** A state in which `kmalloc` gives up: nothing fits and the heap cannot grow. */
  ghost predicate OutOfMemory(t: State, request: nat) { Valid(t) && !HasFit(t.blocks, request) && !CanGrow(t, request) }

  /** `kmalloc` fails exactly when growing again and again leads to a state in which nothing fits
      and the heap cannot grow; it leaves that state as the failed growth does. */
  lemma KmallocFailsExactly(s: State, size: nat)
    requires Valid(s) && s.initialized && 0 < size < U32 && !Wraps(size)
    ensures Kmalloc(s, size).pointer == 0 <==>
      exists t, k :: GrownBy(s, t, AlignRequest(size), k) && OutOfMemory(t, AlignRequest(size))
    ensures forall t, k :: GrownBy(s, t, AlignRequest(size), k) && OutOfMemory(t, AlignRequest(size)) ==>
      G.Ready(t.vmm, t.pmm) && START <= t.next <= TOP && Kmalloc(s, size).state == Grow(t, AlignRequest(size)).0
  {
    hide Valid, Grow, B.Take, PagesFor, GrownBy, OutOfMemory, Kmalloc;
    var request := AlignRequest(size);
    if Kmalloc(s, size).pointer == 0 {
      var t, k := FailingState(s, size);
    }
    forall t, k | GrownBy(s, t, request, k) && OutOfMemory(t, request)
      ensures Kmalloc(s, size).pointer == 0 && G.Ready(t.vmm, t.pmm) && START <= t.next <= TOP
      ensures Kmalloc(s, size).state == Grow(t, request).0
    {
      FailsAfter(s, size, t, k);
    }
  }

  lemma {:induction false} FailingState(s: State, size: nat) returns (t: State, k: nat)
    requires Valid(s) && s.initialized && 0 < size < U32 && !Wraps(size) && Kmalloc(s, size).pointer == 0
    ensures GrownBy(s, t, AlignRequest(size), k) && OutOfMemory(t, AlignRequest(size))
    decreases TOP - s.next
  {
    hide Valid, Grow, B.Take, PagesFor, CanGrow;
    AlignFacts(size);
    var request := AlignRequest(size);
    GrowFacts(s, request);
    GrowExactly(s, request);
    if B.FirstFit(s.blocks, request).None? && Grow(s, request).1 {
      var n: nat;
      t, n := FailingState(Grow(s, request).0, request);
      k := n + 1;
    } else {
      t, k := s, 0;
    }
  }

  lemma {:induction false} FailsAfter(s: State, size: nat, t: State, k: nat)
    requires Valid(s) && s.initialized && 0 < size < U32 && !Wraps(size)
    requires GrownBy(s, t, AlignRequest(size), k) && OutOfMemory(t, AlignRequest(size))
    ensures G.Ready(t.vmm, t.pmm) && START <= t.next <= TOP
    ensures Kmalloc(s, size) == Outcome(Grow(t, AlignRequest(size)).0, 0)
    decreases k
  {
    hide Valid, Grow, B.Take, PagesFor, CanGrow;
    AlignFacts(size);
    var request := AlignRequest(size);
    GrowFacts(s, request);
    GrowFacts(t, request);
    GrowExactly(t, request);
    if k > 0 {
      FailsAfter(Grow(s, request).0, request, t, k - 1);
    }
  }

  /** What `kmalloc` returns lies within the walk, so the pointer check accepts it. */
  lemma {:induction false} KmallocFreeable(s: State, size: nat)
    requires Valid(s) && 0 < size < U32 && !Wraps(size) && Kmalloc(s, size).pointer != 0
    ensures Freeable(Kmalloc(s, size).state, Kmalloc(s, size).pointer)
    decreases TOP - s.next
  {
    hide Valid, Grow, PagesFor;
    AlignFacts(size);
    var request := AlignRequest(size);
    match B.FirstFit(s.blocks, request) {
      case Some(i) =>
        var bs := B.Take(s.blocks, i, request);
        assert bs[i].used && bs[i].Payload() == s.blocks[i].Payload();
      case None =>
        GrowFacts(s, request);
        if Grow(s, request).1 {
          KmallocFreeable(Grow(s, request).0, request);
        }
    }
  }

  /** The walk limit does not hide the block that growing will produce. */
  predicate RoomInWalk(bs: seq<B.Block>) {
    |bs| < B.LIMIT || (|bs| == B.LIMIT && B.LastIsFree(bs))
  }

  lemma PagesForExact(request: nat)
    requires request + B.HEADER <= MAX_GROW * PAGE
    ensures PagesFor(request) <= MAX_GROW
    ensures request + B.HEADER <= PagesFor(request) * PAGE
  {
  }

  /** A request that fits in 16 pages with its header is served after at most one growth,
      exactly when the walk limit leaves room for the new block. */
  lemma OneGrowthSuffices(s: State, size: nat)
    requires Valid(s) && s.initialized && 0 < size && AlignRequest(size) + B.HEADER <= MAX_GROW * PAGE
    requires size < U32 && !Wraps(size)
    requires B.FirstFit(s.blocks, AlignRequest(size)).None? && Grow(s, AlignRequest(size)).1
    ensures Kmalloc(s, size).state.next == Grow(s, AlignRequest(size)).0.next && Kmalloc(s, size).pointer != 0
            <==> RoomInWalk(s.blocks)
  {
    hide G.Ready, G.ViewOf, Backed, Grow, B.Grow, B.Take, B.Tiles, B.Canonical, PagesFor;
    AlignFacts(size);
    var request := AlignRequest(size);
    AlignFacts(request);
    var n := PagesFor(request);
    PagesForExact(request);
    GrowAllOrNothing(s, request);
    B.GrowthSuffices(s.blocks, START, s.next, n, request);
    var t := Grow(s, request).0;
    if B.FirstFit(t.blocks, request).None? {
      GrowAllOrNothing(t, request);
      if Grow(t, request).1 {
        KmallocMonotone(Grow(t, request).0, request);
      }
    }
  }

  // ----- when kmalloc succeeds

  lemma TooBig(s: State, request: nat)
    requires Valid(s) && request >= TOP - START
    ensures !HasFit(s.blocks, request)
  {
    hide G.Ready, G.ViewOf, Backed, B.Canonical;
    B.TilesOrdered(s.blocks, START, s.next);
  }

  /** A request of 16 MiB or more is never served. */
  lemma {:induction false} HugeFails(s: State, size: nat)
    requires Valid(s) && size < U32 && !Wraps(size) && AlignRequest(size) >= TOP - START
    ensures Kmalloc(s, size).pointer == 0
    decreases TOP - s.next
  {
    hide Valid, Grow, B.Take, PagesFor;
    if size > 0 {
      AlignFacts(size);
      var request := AlignRequest(size);
      GrowFacts(s, request);
      TooBig(s, request);
      if Grow(s, request).1 {
        HugeFails(Grow(s, request).0, request);
      }
    }
  }

  /** Growth past the end of the walk never helps. */
  lemma {:induction false} HiddenFails(s: State, size: nat)
    requires Valid(s) && 0 < size < U32 && !Wraps(size) && AlignRequest(size) + B.HEADER <= MAX_GROW * PAGE
    requires !HasFit(s.blocks, AlignRequest(size)) && !RoomInWalk(s.blocks)
    ensures Kmalloc(s, size).pointer == 0
    decreases TOP - s.next
  {
    hide Valid, Grow, B.Take, PagesFor, B.Grow, B.Canonical, B.Tiles;
    AlignFacts(size);
    var request := AlignRequest(size);
    GrowFacts(s, request);
    if Grow(s, request).1 {
      GrowAllOrNothing(s, request);
      ValidParts(s);
      PagesForExact(request);
      B.GrowthSuffices(s.blocks, START, s.next, PagesFor(request), request);
      B.GrowShape(s.blocks, START, s.next, PagesFor(request));
      HiddenFails(Grow(s, request).0, request);
    }
  }

  lemma GrownServes(s: State, size: nat)
    requires Valid(s) && s.initialized && 0 < size < U32 && !Wraps(size)
    requires AlignRequest(size) + B.HEADER <= MAX_GROW * PAGE
    requires !HasFit(s.blocks, AlignRequest(size)) && RoomInWalk(s.blocks)
    ensures Kmalloc(s, size).pointer != 0 <==> CanGrow(s, AlignRequest(size))
  {
    hide Valid, Grow, B.Take, PagesFor, RoomInWalk, CanGrow, Kmalloc;
    AlignFacts(size);
    var request := AlignRequest(size);
    GrowFacts(s, request);
    GrowExactly(s, request);
    if Grow(s, request).1 {
      OneGrowthSuffices(s, size);
    } else {
      assert Kmalloc(s, size).pointer == 0 by { NoGrowth(s, size); }
    }
  }

  lemma NoGrowth(s: State, size: nat)
    requires Valid(s) && s.initialized && 0 < size && !HasFit(s.blocks, AlignRequest(size))
    ensures G.Ready(s.vmm, s.pmm) && START <= s.next <= TOP
    ensures !Grow(s, AlignRequest(size)).1 ==> Kmalloc(s, size).pointer == 0
  {
    hide Valid, Grow;
    GrowFacts(s, AlignRequest(size));
  }

  /** `kmalloc` succeeds exactly when a visited free block is large enough, or the request fits
      sixteen pages with its header, the walk has room for one more block, and the range and the
      frame allocator can supply the pages. */
  lemma KmallocExactly(s: State, size: nat)
    requires Valid(s) && s.initialized && 0 < size < U32 && !Wraps(size)
    ensures var request := AlignRequest(size);
      Kmalloc(s, size).pointer != 0 <==>
        || HasFit(s.blocks, request)
        || (request + B.HEADER <= MAX_GROW * PAGE && RoomInWalk(s.blocks) && CanGrow(s, request))
  {
    hide Valid, Grow, B.Take, PagesFor, RoomInWalk, CanGrow;
    AlignFacts(size);
    var request := AlignRequest(size);
    if HasFit(s.blocks, request) {
      LowestTaken(s, size);
    } else if request + B.HEADER > MAX_GROW * PAGE {
      if request >= TOP - START {
        HugeFails(s, size);
      } else {
        assert !CanGrow(s, request) by { TooManyPages(s, request); }
        GrowExactly(s, request);
        NoGrowth(s, size);
      }
    } else if RoomInWalk(s.blocks) {
      GrownServes(s, size);
    } else {
      HiddenFails(s, size);
    }
  }

  lemma TooManyPages(s: State, request: nat)
    requires MAX_GROW * PAGE < request + B.HEADER && request < TOP - START
    ensures !CanGrow(s, request)
  {
    hide P.Supply, G.FramesNeeded;
    assert PagesNeeded(request) > MAX_GROW;
  }

  ghost predicate LowestFit(bs: seq<B.Block>, request: nat, i: nat) {
    && i < |bs| && !bs[i].used && bs[i].size >= request
    && forall j :: 0 <= j < i ==> bs[j].used || bs[j].size < request
  }

  /** The lowest block that fits is the one taken, without growth. */
  lemma LowestTaken(s: State, size: nat)
    requires Valid(s) && s.initialized && 0 < size < U32 && !Wraps(size) && HasFit(s.blocks, AlignRequest(size))
    ensures Kmalloc(s, size).pointer != 0 && Kmalloc(s, size).state == s.(blocks := Kmalloc(s, size).state.blocks)
    ensures exists i: nat :: LowestFit(s.blocks, AlignRequest(size), i)
    ensures forall i: nat :: LowestFit(s.blocks, AlignRequest(size), i) ==>
      Kmalloc(s, size).pointer == s.blocks[i].addr + B.HEADER
  {
    hide Valid, Grow, B.Take;
    var request := AlignRequest(size);
    var k :| 0 <= k < |s.blocks| && k < B.LIMIT && !s.blocks[k].used && s.blocks[k].size >= request;
    assert B.Fits(s.blocks[k], request);
    var i := B.FirstFit(s.blocks, request).value;
    forall j | 0 <= j < i ensures s.blocks[j].used || s.blocks[j].size < request {
      assert !B.Fits(s.blocks[j], request);
    }
    assert LowestFit(s.blocks, request, i);
    forall m: nat | LowestFit(s.blocks, request, m) ensures m == i {
    }
  }

  lemma {:induction false} KmallocMonotone(s: State, size: nat)
    requires Valid(s)
    ensures Kmalloc(s, size).state.next >= s.next
    decreases TOP - s.next
  {
    hide Valid, Grow, B.Take, PagesFor;
    var request := AlignRequest(size);
    GrowFacts(s, request);
    if s.initialized && size > 0 && B.FirstFit(s.blocks, request).None? && Grow(s, request).1 {
      KmallocMonotone(Grow(s, request).0, request);
    }
  }

  /** The pointers `kfree` acts on: payloads of used blocks that the walk reaches. */
  ghost predicate Freeable(s: State, p: nat) {
    s.initialized && exists i :: 0 <= i < |s.blocks| && i < B.LIMIT && s.blocks[i].used && s.blocks[i].Payload() == p
  }

  /** `kfree` of a freeable pointer removes that live block and coalesces; of anything else
      it changes nothing. */
  lemma KfreeExact(s: State, p: nat)
    requires Valid(s)
    ensures Valid(Kfree(s, p))
    ensures !Freeable(s, p) ==> Kfree(s, p) == s
    ensures Freeable(s, p) ==>
      exists b :: b in B.Live(s.blocks) && b.Payload() == p && B.Live(Kfree(s, p).blocks) == B.Live(s.blocks) - {b}
  {
    hide G.Ready, G.ViewOf, Backed, B.Release;
    if Freeable(s, p) {
      var i :| 0 <= i < |s.blocks| && i < B.LIMIT && s.blocks[i].used && s.blocks[i].Payload() == p;
      B.TilesOrdered(s.blocks, START, s.next);
      assert Find(s, p).Some?;
      B.PayloadUnique(s.blocks, START, s.next, i, Find(s, p).value);
      B.ReleaseKeeps(s.blocks, START, s.next, i);
      assert s.blocks[i] in B.Live(s.blocks);
    }
  }

  /** Freeing what was just allocated without growth restores the whole state. */
  lemma KfreeUndoesKmalloc(s: State, size: nat)
    requires Valid(s) && s.initialized && 0 < size < U32 && !Wraps(size)
    requires B.FirstFit(s.blocks, AlignRequest(size)).Some?
    ensures var r := Kmalloc(s, size); r.pointer != 0 && Kfree(r.state, r.pointer) == s
  {
    hide G.Ready, G.ViewOf, Backed, B.Release;
    AlignFacts(size);
    var request := AlignRequest(size);
    var i := B.FirstFit(s.blocks, request).value;
    var r := Kmalloc(s, size);
    B.TakeKeeps(s.blocks, START, s.next, i, request);
    B.TakeLive(s.blocks, START, s.next, i, request);
    B.ReleaseUndoesTake(s.blocks, START, s.next, i, request);
    B.TilesOrdered(r.state.blocks, START, s.next);
    assert Find(r.state, r.pointer).Some?;
    B.PayloadUnique(r.state.blocks, START, s.next, i, Find(r.state, r.pointer).value);
  }

  // ----- initialisation and whole runs

  /** `heap_initialize`: grow by one page from an empty range. */
  function Initialize(v: V.State, p: P.State): State
    requires G.Ready(v, p)
  {
    var g := Grow(State(false, [], START, v, p), PAGE - B.HEADER);
    if g.1 then g.0.(initialized := true) else g.0
  }

  lemma EmptyValid(v: V.State, p: P.State)
    requires G.Ready(v, p) && forall k :: FIRST_PAGE <= k < TOP_PAGE ==> k !in G.ViewOf(v, p).mapping
    ensures Valid(State(false, [], START, v, p))
  {
    hide G.Ready, G.ViewOf;
  }

  lemma InitializeValid(v: V.State, p: P.State)
    requires G.Ready(v, p) && forall k :: FIRST_PAGE <= k < TOP_PAGE ==> k !in G.ViewOf(v, p).mapping
    ensures Valid(Initialize(v, p))
    ensures Initialize(v, p).initialized ==> Initialize(v, p).blocks == [B.Block(START, PAGE - B.HEADER, false)]
  {
    hide G.Ready, G.ViewOf, Grow, PagesFor, B.Grow;
    var s := State(false, [], START, v, p);
    EmptyValid(v, p);
    GrowAllOrNothing(s, PAGE - B.HEADER);
    assert PagesFor(PAGE - B.HEADER) == 1 by { PagesForOne(); }
    B.GrowShape([], START, START, 1);
  }

  /** The heap initialises exactly when the allocator has a frame for its first page and, if that
      is missing, for the page table above it. */
  lemma InitializesExactly(v: V.State, p: P.State)
    requires G.Ready(v, p) && forall k :: FIRST_PAGE <= k < TOP_PAGE ==> k !in G.ViewOf(v, p).mapping
    ensures p.next <= p.end && |v.dir| == V.ENTRIES
    ensures Initialize(v, p).initialized <==>
      P.Supply(p) >= if V.Present(v.dir[FIRST_PAGE / V.ENTRIES]) then 1 else 2
  {
    hide G.Ready, G.ViewOf, Grow, P.Supply, V.Present, Valid;
    var s := State(false, [], START, v, p);
    EmptyValid(v, p);
    G.ReadySupply(v, p);
    GrowExactly(s, PAGE - B.HEADER);
    assert PagesNeeded(PAGE - B.HEADER) == 1;
    FirstTable(v.dir);
  }

  /** With eighteen frames at hand the heap initialises and then serves any request of up to
      65520 bytes, kernel stacks of 4096 among them. */
  lemma FreshServes(v: V.State, p: P.State, size: nat)
    requires G.Ready(v, p) && forall k :: FIRST_PAGE <= k < TOP_PAGE ==> k !in G.ViewOf(v, p).mapping
    requires p.next <= p.end && P.Supply(p) >= 18 && 0 < size <= 65520
    ensures Initialize(v, p).initialized && Valid(Initialize(v, p))
    ensures Kmalloc(Initialize(v, p), size).pointer != 0
  {
    hide G.Ready, G.ViewOf, Grow, P.Supply, V.Present, Valid, Kmalloc, Initialize, G.FramesNeeded;
    var s := Initialize(v, p);
    InitializesExactly(v, p);
    InitializeValid(v, p);
    AlignFacts(size);
    KmallocExactly(s, size);
    var request := AlignRequest(size);
    assert request + B.HEADER <= MAX_GROW * PAGE;
    assert CanGrow(s, request) by {
      FirstPageTaken(v, p);
      SameTable(s.vmm.dir, PagesNeeded(request));
      assert G.FramesNeeded(s.vmm, s.next, PagesNeeded(request)) == PagesNeeded(request) by {
        NothingMissing(s.vmm, s.next, PagesNeeded(request));
      }
    }
  }

  lemma NothingMissing(v: V.State, va: nat, n: nat)
    requires G.Missing(v.dir, va / PAGE, n) == {}
    ensures G.FramesNeeded(v, va, n) == n
  {
  }

  /** The sixteen pages after the first lie under the same page table. */
  lemma SameTable(dir: seq<nat>, n: nat)
    requires |dir| == V.ENTRIES && n <= MAX_GROW && V.Present(dir[FIRST_PAGE / V.ENTRIES])
    ensures G.Missing(dir, (START + PAGE) / PAGE, n) == {}
  {
    hide V.Present;
  }

  lemma FirstPageTaken(v: V.State, p: P.State)
    requires G.Ready(v, p) && p.next <= p.end && P.Supply(p) >= 18 && Initialize(v, p).initialized
    ensures var s := Initialize(v, p);
      && s.next == START + PAGE && s.pmm.next <= s.pmm.end && P.Supply(s.pmm) >= 16
      && |s.vmm.dir| == V.ENTRIES && V.Present(s.vmm.dir[FIRST_PAGE / V.ENTRIES])
  {
    hide G.Ready, P.Supply, V.Present, V.MapPage, P.Alloc;
    assert PagesFor(PAGE - B.HEADER) == 1 by { PagesForOne(); }
    G.ReadySupply(v, p);
    G.SupplyLeft(v, p);
    G.MapOneExactly(v, p, START);
    var a := P.Alloc(p);
    G.StepReady(v, p, START);
    var m := V.MapPage(v, a.state, START, a.page, 2);
    assert G.MapPages(v, p, START, 1).vmm == m.vmm && G.MapPages(v, p, START, 1).pmm == m.pmm;
  }

  lemma FirstTable(dir: seq<nat>)
    requires |dir| == V.ENTRIES
    ensures |G.Missing(dir, FIRST_PAGE, 1)| == if V.Present(dir[FIRST_PAGE / V.ENTRIES]) then 0 else 1
  {
    hide V.Present;
    var i := FIRST_PAGE / V.ENTRIES;
    assert G.Missing(dir, FIRST_PAGE, 1) == if V.Present(dir[i]) then {} else {i};
  }

  /** A blank directory over any boot region is such a starting point. */
  lemma BlankStart(start: nat, end: nat)
    requires P.ONE_MIB <= start <= end < 0xFFFF_F000 && start % PAGE == 0
    ensures var v, p := V.State(true, V.EmptyTable(), map[], 0), P.Fresh(start, end);
      G.Ready(v, p) && forall k :: FIRST_PAGE <= k < TOP_PAGE ==> k !in G.ViewOf(v, p).mapping
  {
    var v, p := V.State(true, V.EmptyTable(), map[], 0), P.Fresh(start, end);
    assert V.Valid(v) && P.Valid(p);
    forall k | FIRST_PAGE <= k < TOP_PAGE ensures k !in V.Mapping(v) {
      assert V.Translate(v, k).None?;
    }
  }

  lemma PagesForOne()
    ensures PagesFor(PAGE - B.HEADER) == 1
  {
  }

  datatype Op = Malloc(size: nat) | Free(pointer: nat)

  predicate Sound(op: Op) {
    op.Malloc? ==> op.size <= 0xFFFF_FFF8
  }

  function Step(s: State, op: Op): State
    requires Valid(s)
  {
    match op
    case Malloc(size) => Kmalloc(s, size).state
    case Free(p) => Kfree(s, p)
  }

  lemma StepValid(s: State, op: Op)
    requires Valid(s) && Sound(op)
    ensures Valid(Step(s, op))
  {
    hide Valid, Kmalloc, Kfree;
    match op {
      case Malloc(size) =>
        if size > 0 {
          AlignFacts(size);
          KmallocCorrect(s, size);
        } else {
          KmallocWellFormedExactly(s, size);
        }
      case Free(p) => KfreeExact(s, p);
    }
  }

  function Run(s: State, ops: seq<Op>): State
    requires Valid(s) && forall op :: op in ops ==> Sound(op)
    decreases |ops|
  {
    if ops == [] then s
    else
      StepValid(s, ops[0]);
      Run(Step(s, ops[0]), ops[1..])
  }

  /** After any run of allocations and frees, with any pointers freed, the block list tiles
      the heap range, is coalesced, is backed by frames of its own, and its payload bytes
      and headers add up to the whole range. */
  lemma {:induction false} RunKeepsHeap(s: State, ops: seq<Op>)
    requires Valid(s) && forall op :: op in ops ==> Sound(op)
    ensures var t := Run(s, ops);
      Valid(t) && B.Bytes(t.blocks, true) + B.Bytes(t.blocks, false) + B.HEADER * |t.blocks| == t.next - START
    decreases |ops|
  {
    if ops == [] {
      B.BytesTile(s.blocks, START, s.next);
    } else {
      hide Valid, Step;
      StepValid(s, ops[0]);
      RunKeepsHeap(Step(s, ops[0]), ops[1..]);
    }
  }

  lemma StepKeepsLive(s: State, op: Op, b: B.Block)
    requires Valid(s) && Sound(op) && b in B.Live(s.blocks) && op != Free(b.Payload())
    ensures b in B.Live(Step(s, op).blocks)
  {
    hide Valid, Kmalloc, Kfree, B.Live;
    match op {
      case Malloc(size) =>
        if size > 0 {
          AlignFacts(size);
          KmallocCorrect(s, size);
        } else {
          KmallocZero(s);
        }
      case Free(p) => KfreeExact(s, p);
    }
  }

  lemma KmallocZero(s: State)
    requires Valid(s)
    ensures Kmalloc(s, 0) == Outcome(s, 0)
  {
  }

  /** A live block keeps its place and size over any run that does not free its pointer. */
  lemma {:induction false} LiveUntilFreed(s: State, ops: seq<Op>, b: B.Block)
    requires Valid(s) && (forall op :: op in ops ==> Sound(op)) && b in B.Live(s.blocks)
    requires Free(b.Payload()) !in ops
    ensures b in B.Live(Run(s, ops).blocks)
    decreases |ops|
  {
    hide Valid, Step, B.Live;
    if ops != [] {
      StepValid(s, ops[0]);
      StepKeepsLive(s, ops[0], b);
      LiveUntilFreed(Step(s, ops[0]), ops[1..], b);
    }
  }
}
