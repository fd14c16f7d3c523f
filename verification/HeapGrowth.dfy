/** Growing the kernel heap: mapping a run of fresh frames above the heap, and undoing it. */
module HeapGrowth {
  import opened MachineWords
  import opened Finite
  import P = Pmm32
  import V = Vmm32

  /** Both lower layers are consistent and no page table can be handed out as a frame. */
  ghost predicate Ready(v: V.State, p: P.State) {
    V.Valid(v) && P.Valid(p) && V.TablesReserved(v, p) && v.ready
  }

  datatype Mapped = Mapped(vmm: V.State, pmm: P.State, frames: seq<nat>, ok: bool)

  /** The page loop of `heap_grow`: allocate a frame, map it writable, go on; stop at the
      first failure, returning the frame that could not be mapped. */
  function MapPages(v: V.State, p: P.State, va: nat, n: nat): Mapped
    requires Ready(v, p) && va + n * PAGE <= U32
    decreases n
  {
    hide V.Valid, P.Valid, V.TablesReserved, V.MapPage, P.Alloc;
    if n == 0 then Mapped(v, p, [], true)
    else
      var a := P.Alloc(p);
      if a.page == 0 then Mapped(v, a.state, [], false)
      else
        StepReady(v, p, va);
        var m := V.MapPage(v, a.state, va, a.page, 2);
        if !m.ok then Mapped(m.vmm, P.Free(m.pmm, a.page), [], false)
        else
          var rest := MapPages(m.vmm, m.pmm, va + PAGE, n - 1);
          rest.(frames := [a.page] + rest.frames)
  }

  /** `heap_rollback_growth`: unmap and free page by page. */
  function Rollback(v: V.State, p: P.State, va: nat, frames: seq<nat>): (r: (V.State, P.State))
    requires Ready(v, p) && va + |frames| * PAGE <= U32
    requires forall f :: f in frames ==> f !in v.tables
    decreases |frames|
  {
    if frames == [] then (v, p)
    else
      RollbackOne(v, p, va, frames[0]);
      Rollback(V.UnmapPage(v, va).0, P.Free(p, frames[0]), va + PAGE, frames[1..])
  }

  lemma AllocReady(v: V.State, p: P.State)
    requires Ready(v, p)
    ensures var a := P.Alloc(p);
      && Ready(v, a.state)
      && (a.page != 0 ==> a.page !in v.tables && a.page % PAGE == 0 && a.page !in P.Held(p)
                          && P.Held(a.state) == P.Held(p) + {a.page} && !P.Available(a.state, a.page))
      && (forall f :: P.Available(a.state, f) ==> P.Available(p, f))
      && |a.state.stack| <= |p.stack| && (a.page != 0 ==> |a.state.stack| + 1 <= |p.stack| || a.state.stack == [])
  {
    P.AllocValid(p);
    P.AllocFresh(p);
  }

  lemma DirectorySize(v: V.State)
    requires V.Valid(v)
    ensures |v.dir| == V.ENTRIES
  {
  }

  /** One successful step of the growth loop. */
  lemma MapOne(v: V.State, p: P.State, va: nat)
    requires Ready(v, p) && va < U32 && P.Alloc(p).page != 0
    ensures Ready(v, P.Alloc(p).state)
    ensures var a := P.Alloc(p); var m := V.MapPage(v, a.state, va, a.page, 2);
      && Ready(m.vmm, m.pmm)
      && a.page !in m.vmm.tables && !P.Available(m.pmm, a.page)
      && v.tables.Keys <= m.vmm.tables.Keys
      && (m.ok ==> V.Mapping(m.vmm) == V.Mapping(v)[va / PAGE := V.Leaf(a.page, true, false)])
      && (!m.ok ==> m.vmm == v && m.pmm == a.state)
      && P.Held(m.pmm) == P.Held(p) + {a.page} + (m.vmm.tables.Keys - v.tables.Keys)
      && (forall f :: P.Available(m.pmm, f) ==> P.Available(p, f))
      && (m.vmm.tables.Keys - v.tables.Keys) !! P.Held(p)
      && (|m.pmm.stack| + 1 <= |p.stack| || m.pmm.stack == [])
  {
    hide V.Valid, P.Valid, V.TablesReserved, V.Mapping, P.Held, P.Alloc, V.MapPage, P.Available;
    var a := P.Alloc(p);
    assert |v.dir| == V.ENTRIES by { DirectorySize(v); }
    AllocReady(v, p);
    V.MapRefines(v, a.state, va, a.page, 2);
    AllocReady(v, a.state);
    var m := V.MapPage(v, a.state, va, a.page, 2);
    assert V.FrameOf(a.page) == a.page by { Quotient(a.page, PAGE, a.page / PAGE, 0); }
    if m.ok && !V.Present(v.dir[va / PAGE / V.ENTRIES]) {
      var t := P.Alloc(a.state).page;
      assert m.vmm.tables.Keys - v.tables.Keys == {t};
    } else {
      assert m.vmm.tables.Keys - v.tables.Keys == {};
    }
  }

  lemma StepReady(v: V.State, p: P.State, va: nat)
    requires Ready(v, p) && va < U32 && P.Alloc(p).page != 0
    ensures Ready(v, P.Alloc(p).state)
    ensures var m := V.MapPage(v, P.Alloc(p).state, va, P.Alloc(p).page, 2); Ready(m.vmm, m.pmm)
  {
    MapOne(v, p, va);
  }

  lemma RollbackOne(v: V.State, p: P.State, va: nat, frame: nat)
    requires Ready(v, p) && va < U32 && frame !in v.tables
    ensures var w := V.UnmapPage(v, va).0; var q := P.Free(p, frame);
      && Ready(w, q) && w.tables.Keys == v.tables.Keys
      && V.Mapping(w) == V.Mapping(v) - {va / PAGE}
      && (frame in P.Held(p) && |p.stack| < P.MAX_FREE ==>
            P.Held(q) == P.Held(p) - {frame} && |q.stack| == |p.stack| + 1)
  {
    V.UnmapRefines(v, va);
    P.FreeExact(p, frame);
  }

  // ----- what the two lower layers look like from the heap

  /** The address space, the page-table frames, the frames held and the free-stack depth. */
  datatype View = View(mapping: map<nat, V.Leaf>, tables: set<nat>, held: set<nat>, stack: nat)

  ghost function ViewOf(v: V.State, p: P.State): View
    requires Ready(v, p)
  {
    View(V.Mapping(v), v.tables.Keys, P.Held(p), |p.stack|)
  }

  /** The `n` page numbers from `vp` on. */
  ghost function Span(vp: nat, n: nat): (s: set<nat>)
    ensures forall k :: k in s <==> vp <= k < vp + n
  {
    if n == 0 then {} else Span(vp, n - 1) + {vp + n - 1}
  }

  /** Consecutive pages from `vp` on, mapped writable and supervisor-only to `frames`. */
  ghost function Window(vp: nat, frames: seq<nat>): map<nat, V.Leaf> {
    map k | k in Span(vp, |frames|) :: V.Leaf(frames[k - vp], true, false)
  }

  /** From `a` to `b` the window of `frames` was added: distinct frames nobody held before,
      none of them a page table; besides them only new page tables were taken. */
  ghost predicate Grew(a: View, b: View, vp: nat, frames: seq<nat>) {
    && a.tables <= b.tables
    && b.mapping == a.mapping + Window(vp, frames)
    && NoDup(frames)
    && (forall f :: f in frames ==> f !in a.held && f !in b.tables && f % PAGE == 0)
    && (b.tables - a.tables) !! a.held
    && b.held == a.held + Elements(frames) + (b.tables - a.tables)
  }

  /** A free-stack depth that leaves room to return `n` frames. */
  predicate Room(before: nat, after: nat, n: nat) {
    after + n <= before || after <= 1
  }

  ghost predicate Shrank(a: View, b: View, vp: nat, frames: seq<nat>) {
    && b.tables == a.tables
    && b.mapping == a.mapping - Span(vp, |frames|)
    && b.held == a.held - Elements(frames)
  }

  lemma GrewNothing(a: View, vp: nat)
    ensures Grew(a, a, vp, [])
  {
    assert Window(vp, []) == map[];
  }

  lemma WindowCons(base: map<nat, V.Leaf>, vp: nat, f: nat, frames: seq<nat>)
    ensures base + Window(vp, [f]) + Window(vp + 1, frames) == base + Window(vp, [f] + frames)
  {
    var all := [f] + frames;
    assert Span(vp, |all|) == Span(vp, 1) + Span(vp + 1, |frames|);
  }

  lemma GrewCons(a: View, b: View, c: View, vp: nat, f: nat, frames: seq<nat>)
    requires Grew(a, b, vp, [f]) && Grew(b, c, vp + 1, frames)
    ensures Grew(a, c, vp, [f] + frames)
  {
    WindowCons(a.mapping, vp, f, frames);
    var all := [f] + frames;
    assert Elements(all) == {f} + Elements(frames);
    assert Elements([f]) == {f};
    assert f in [f];
    assert f in b.held;
    assert c.tables - a.tables == (b.tables - a.tables) + (c.tables - b.tables);
  }

  lemma ShrankCons(a: View, b: View, c: View, vp: nat, f: nat, frames: seq<nat>)
    requires Shrank(a, b, vp, [f]) && Shrank(b, c, vp + 1, frames)
    ensures Shrank(a, c, vp, [f] + frames)
  {
    assert Elements([f] + frames) == {f} + Elements(frames);
    assert Elements([f]) == {f};
    assert Span(vp, |[f] + frames|) == Span(vp, 1) + Span(vp + 1, |frames|);
  }

  /** Growing and then shrinking by the same window keeps only the new page tables. */
  lemma GrewShrank(a: View, b: View, c: View, vp: nat, frames: seq<nat>)
    requires Grew(a, b, vp, frames) && Shrank(b, c, vp, frames)
    requires forall k :: k in Span(vp, |frames|) ==> k !in a.mapping
    ensures c.mapping == a.mapping
    ensures (c.tables - a.tables) !! a.held
    ensures a.tables <= c.tables && c.held == a.held + (c.tables - a.tables)
  {
    assert Window(vp, frames).Keys == Span(vp, |frames|);
  }

  // ----- one page

  /** One successful step of the growth loop. */
  lemma MapOneGrew(v: V.State, p: P.State, va: nat)
    requires Ready(v, p) && va < U32 && P.Alloc(p).page != 0
    ensures Ready(v, P.Alloc(p).state)
    ensures var a := P.Alloc(p); var m := V.MapPage(v, a.state, va, a.page, 2);
      && Ready(m.vmm, m.pmm)
      && (m.ok ==> Grew(ViewOf(v, p), ViewOf(m.vmm, m.pmm), va / PAGE, [a.page])
                   && Room(|p.stack|, |m.pmm.stack|, 1) && |m.pmm.stack| <= |p.stack|)
      && (!m.ok ==> m.vmm == v && m.pmm == a.state)
  {
    var a := P.Alloc(p);
    AllocReady(v, p);
    MapOne(v, p, va);
    var m := V.MapPage(v, a.state, va, a.page, 2);
    if m.ok {
      WindowOne(V.Mapping(v), va / PAGE, a.page);
      assert Elements([a.page]) == {a.page};
    }
  }

  lemma WindowOne(base: map<nat, V.Leaf>, vp: nat, f: nat)
    ensures base[vp := V.Leaf(f, true, false)] == base + Window(vp, [f])
  {
    assert Span(vp, 1) == {vp};
  }

  lemma FreeBack(v: V.State, p: P.State)
    requires Ready(v, p) && P.Alloc(p).page != 0
    ensures var a := P.Alloc(p); var q := P.Free(a.state, a.page);
      Ready(v, q) && ViewOf(v, q) == ViewOf(v, p).(stack := |q.stack|) && Room(|p.stack|, |q.stack|, 0)
  {
    AllocReady(v, p);
    P.FreeExact(P.Alloc(p).state, P.Alloc(p).page);
  }

  // ----- the loops

  ghost predicate GrowthOf(v: V.State, p: P.State, va: nat, n: nat, m: Mapped)
    requires Ready(v, p)
  {
    && Ready(m.vmm, m.pmm)
    && Grew(ViewOf(v, p), ViewOf(m.vmm, m.pmm), va / PAGE, m.frames)
    && |m.frames| <= n && (m.ok <==> |m.frames| == n)
    && Room(|p.stack|, |m.pmm.stack|, |m.frames|)
  }

  lemma GrowthStops(v: V.State, p: P.State, va: nat, n: nat)
    requires Ready(v, p) && va + n * PAGE <= U32 && n > 0
    requires var a := P.Alloc(p); a.page == 0 || (Ready(v, a.state) && !V.MapPage(v, a.state, va, a.page, 2).ok)
    ensures GrowthOf(v, p, va, n, MapPages(v, p, va, n))
  {
    var a := P.Alloc(p);
    P.AllocValid(p);
    GrewNothing(ViewOf(v, p), va / PAGE);
    if a.page != 0 {
      MapOneGrew(v, p, va);
      FreeBack(v, p);
      GrewNothing(ViewOf(v, P.Free(a.state, a.page)), va / PAGE);
    }
  }

  lemma GrowthContinues(v: V.State, p: P.State, w: V.State, q: P.State, va: nat, n: nat, f: nat, rest: Mapped)
    requires Ready(v, p) && Ready(w, q) && n > 0
    requires Grew(ViewOf(v, p), ViewOf(w, q), va / PAGE, [f])
    requires Room(|p.stack|, |q.stack|, 1) && |q.stack| <= |p.stack|
    requires GrowthOf(w, q, va + PAGE, n - 1, rest)
    ensures GrowthOf(v, p, va, n, rest.(frames := [f] + rest.frames))
  {
    hide Ready, Grew, V.Mapping, P.Held;
    GrewCons(ViewOf(v, p), ViewOf(w, q), ViewOf(rest.vmm, rest.pmm), va / PAGE, f, rest.frames);
  }

  lemma {:induction false} MapPagesGrew(v: V.State, p: P.State, va: nat, n: nat)
    requires Ready(v, p) && va + n * PAGE <= U32
    ensures GrowthOf(v, p, va, n, MapPages(v, p, va, n))
    decreases n
  {
    hide Ready, Grew, V.Mapping, P.Held, P.Alloc, V.MapPage;
    if n == 0 {
      GrewNothing(ViewOf(v, p), va / PAGE);
    } else {
      var a := P.Alloc(p);
      AllocReady(v, p);
      if a.page == 0 || !V.MapPage(v, a.state, va, a.page, 2).ok {
        GrowthStops(v, p, va, n);
      } else {
        MapOneGrew(v, p, va);
        var r := V.MapPage(v, a.state, va, a.page, 2);
        MapPagesGrew(r.vmm, r.pmm, va + PAGE, n - 1);
        GrowthContinues(v, p, r.vmm, r.pmm, va, n, a.page, MapPages(r.vmm, r.pmm, va + PAGE, n - 1));
      }
    }
  }

  // ----- when the loop succeeds

  /** The directory words under `n` pages from `vp` on that have no page table yet. */
  ghost function Missing(dir: seq<nat>, vp: nat, n: nat): set<nat> {
    set i | 0 <= i < |dir| && n > 0 && vp / V.ENTRIES <= i <= (vp + n - 1) / V.ENTRIES && !V.Present(dir[i])
  }

  /** The frames that mapping `n` pages from `va` on takes: one for each page and one for each
      page table that is missing. */
  ghost function FramesNeeded(v: V.State, va: nat, n: nat): nat { n + |Missing(v.dir, va / PAGE, n)| }

  lemma MissingStep(dir: seq<nat>, after: seq<nat>, vp: nat, n: nat)
    requires n > 0 && |after| == |dir| && vp / V.ENTRIES < |dir|
    requires forall i :: 0 <= i < |dir| ==> (V.Present(after[i]) <==> V.Present(dir[i]) || i == vp / V.ENTRIES)
    ensures Missing(after, vp + 1, n - 1) == Missing(dir, vp, n) - {vp / V.ENTRIES}
    ensures vp / V.ENTRIES in Missing(dir, vp, n) <==> !V.Present(dir[vp / V.ENTRIES])
  {
    hide V.Present;
    assert vp / V.ENTRIES <= (vp + 1) / V.ENTRIES <= vp / V.ENTRIES + 1;
    assert vp / V.ENTRIES <= (vp + n - 1) / V.ENTRIES;
  }

  lemma ReadySupply(v: V.State, p: P.State)
    requires Ready(v, p)
    ensures p.next <= p.end && |v.dir| == V.ENTRIES
  {
  }

  /** What one page takes: a frame, and another when its page table is missing. */
  lemma MapOneExactly(v: V.State, p: P.State, va: nat)
    requires Ready(v, p) && va < U32 && P.Alloc(p).page != 0
    ensures Ready(v, P.Alloc(p).state) && p.next <= p.end && |v.dir| == V.ENTRIES
    ensures var a := P.Alloc(p); var m := V.MapPage(v, a.state, va, a.page, 2);
      var used := if V.Present(v.dir[va / PAGE / V.ENTRIES]) then 1 else 2;
      && (m.ok <==> P.Supply(p) >= used)
      && (m.ok ==>
            && m.pmm.next <= m.pmm.end && P.Supply(m.pmm) == P.Supply(p) - used
            && |m.vmm.dir| == |v.dir|
            && forall i :: 0 <= i < |v.dir| ==>
                 (V.Present(m.vmm.dir[i]) <==> V.Present(v.dir[i]) || i == va / PAGE / V.ENTRIES))
  {
    hide V.Valid, P.Valid, V.TablesReserved, V.Mapping, P.Alloc, V.MapPage, V.Present, P.Supply;
    AllocReady(v, p);
    ReadySupply(v, p);
    var a := P.Alloc(p);
    P.AllocExactly(p);
    P.AllocExactly(a.state);
    V.MapRefines(v, a.state, va, a.page, 2);
    if V.MapPage(v, a.state, va, a.page, 2).ok {
      V.MapDirectory(v, a.state, va, a.page, 2);
    }
  }

  /** The page loop completes exactly when the allocator has a frame for every page and for
      every missing page table. */
  lemma {:induction false} MapPagesExactly(v: V.State, p: P.State, va: nat, n: nat)
    requires Ready(v, p) && va + n * PAGE <= U32
    ensures p.next <= p.end
    ensures MapPages(v, p, va, n).ok <==> P.Supply(p) >= FramesNeeded(v, va, n)
    decreases n
  {
    hide Ready, P.Alloc, V.MapPage, V.Present, P.Supply, Missing;
    ReadySupply(v, p);
    if n == 0 {
      assert Missing(v.dir, va / PAGE, 0) == {} by { MissingNothing(v.dir, va / PAGE); }
    } else {
      var a := P.Alloc(p);
      assert a.page != 0 <==> P.Supply(p) > 0 by { SupplyLeft(v, p); }
      if a.page != 0 {
        StepReady(v, p, va);
        MapOneExactly(v, p, va);
        var m := V.MapPage(v, a.state, va, a.page, 2);
        var i := va / PAGE / V.ENTRIES;
        if m.ok {
          MapPagesExactly(m.vmm, m.pmm, va + PAGE, n - 1);
          MissingStep(v.dir, m.vmm.dir, va / PAGE, n);
        } else {
          MissingHere(v.dir, va / PAGE, n);
        }
      }
    }
  }

  lemma SupplyLeft(v: V.State, p: P.State)
    requires Ready(v, p)
    ensures p.next <= p.end && (P.Alloc(p).page != 0 <==> P.Supply(p) > 0)
  {
    P.AllocExactly(p);
  }

  lemma MissingNothing(dir: seq<nat>, vp: nat)
    ensures Missing(dir, vp, 0) == {}
  {
  }

  lemma MissingHere(dir: seq<nat>, vp: nat, n: nat)
    requires n > 0 && vp / V.ENTRIES < |dir| && !V.Present(dir[vp / V.ENTRIES])
    ensures |Missing(dir, vp, n)| > 0
  {
    hide V.Present;
    assert vp / V.ENTRIES in Missing(dir, vp, n);
  }

  /** What the growth loop leaves behind can be rolled back. */
  lemma RollbackPossible(v: V.State, p: P.State, va: nat, n: nat)
    requires Ready(v, p) && va + n * PAGE <= U32
    ensures var m := MapPages(v, p, va, n);
      Ready(m.vmm, m.pmm) && |m.frames| <= n && forall f :: f in m.frames ==> f !in m.vmm.tables
  {
    MapPagesGrew(v, p, va, n);
  }

  lemma RollbackOneShrank(v: V.State, p: P.State, va: nat, f: nat)
    requires Ready(v, p) && va < U32 && f !in v.tables && f in P.Held(p) && |p.stack| < P.MAX_FREE
    ensures var w, q := V.UnmapPage(v, va).0, P.Free(p, f);
      Ready(w, q) && Shrank(ViewOf(v, p), ViewOf(w, q), va / PAGE, [f]) && |q.stack| == |p.stack| + 1
  {
    RollbackOne(v, p, va, f);
    assert Span(va / PAGE, 1) == {va / PAGE} && Elements([f]) == {f};
  }

  lemma {:induction false} RollbackShrank(v: V.State, p: P.State, va: nat, frames: seq<nat>)
    requires Ready(v, p) && va + |frames| * PAGE <= U32
    requires NoDup(frames) && |p.stack| + |frames| <= P.MAX_FREE
    requires forall f :: f in frames ==> f in P.Held(p) && f !in v.tables
    ensures var r := Rollback(v, p, va, frames);
      Ready(r.0, r.1) && Shrank(ViewOf(v, p), ViewOf(r.0, r.1), va / PAGE, frames)
    decreases |frames|
  {
    hide V.Valid, V.TablesReserved, V.Mapping, P.Held, V.UnmapPage, P.Free;
    if frames == [] {
      assert Span(va / PAGE, 0) == {};
    } else {
      var f := frames[0];
      RollbackOneShrank(v, p, va, f);
      var w, q := V.UnmapPage(v, va).0, P.Free(p, f);
      assert Elements([f]) == {f};
      forall g | g in frames[1..] ensures g in P.Held(q) && g !in w.tables {
        assert g in ViewOf(w, q).held;
      }
      RollbackShrank(w, q, va + PAGE, frames[1..]);
      var r := Rollback(w, q, va + PAGE, frames[1..]);
      ShrankCons(ViewOf(v, p), ViewOf(w, q), ViewOf(r.0, r.1), va / PAGE, f, frames[1..]);
      assert frames == [f] + frames[1..];
    }
  }

  /** `b` is `a` except that some frames nobody held became page tables. */
  ghost predicate OnlyTablesAdded(a: View, b: View) {
    && b.mapping == a.mapping
    && a.tables <= b.tables && (b.tables - a.tables) !! a.held
    && b.held == a.held + (b.tables - a.tables)
  }

  /** A failed growth leaves every mapping as it was and returns every data frame; only
      frames turned into page tables stay taken. */
  lemma FailedGrowthUndone(v: V.State, p: P.State, va: nat, n: nat)
    requires Ready(v, p) && va + n * PAGE <= U32 && n < P.MAX_FREE
    requires forall k :: k in Span(va / PAGE, n) ==> k !in ViewOf(v, p).mapping
    requires !MapPages(v, p, va, n).ok
    ensures var m := MapPages(v, p, va, n);
      Ready(m.vmm, m.pmm) && |m.frames| <= n && (forall f :: f in m.frames ==> f !in m.vmm.tables)
    ensures var m := MapPages(v, p, va, n); var r := Rollback(m.vmm, m.pmm, va, m.frames);
      Ready(r.0, r.1) && OnlyTablesAdded(ViewOf(v, p), ViewOf(r.0, r.1))
  {
    var m := MapPages(v, p, va, n);
    MapPagesGrew(v, p, va, n);
    RollbackShrank(m.vmm, m.pmm, va, m.frames);
    var r := Rollback(m.vmm, m.pmm, va, m.frames);
    GrewShrank(ViewOf(v, p), ViewOf(m.vmm, m.pmm), ViewOf(r.0, r.1), va / PAGE, m.frames);
  }
}
