/** The i386 virtual memory manager: two-level page tables (32-bit paging, Intel SDM
    volume 3A section 4.3) whose second-level tables come from the page allocator.
    A page-table word is a natural below 2^32: bit 0 present, bit 1 writable, bit 2 user,
    bits 12-31 the frame. */
module Vmm32 {
  import opened MachineWords
  import opened Wrappers
  import Pmm32

  const ENTRIES: nat := 1024
  const VIRTUAL_PAGES: nat := 0x10_0000

  predicate Present(e: nat) { e % 2 == 1 }
  predicate Writable(e: nat) { (e / 2) % 2 == 1 }
  predicate User(e: nat) { (e / 4) % 2 == 1 }
  function FrameOf(e: nat): nat { e / PAGE * PAGE }
  function WithUser(e: nat): nat { if User(e) then e else e + 4 }

  /** Only the writable (2) and user (4) bits may be requested. */
  predicate ValidFlags(flags: nat) { flags == 0 || flags == 2 || flags == 4 || flags == 6 }

  /** `dir` is the page directory; `tables` holds each page table by its frame address. */
  datatype State = State(ready: bool, dir: seq<nat>, tables: map<nat, seq<nat>>, created: nat)

  /** What a page table walk yields: the frame and the rights left by both levels. */
  datatype Leaf = Leaf(frame: nat, writable: bool, user: bool)
  /** Every present directory word names its own full table, writable, and no page of a
      table is more permissive towards user mode than the directory word above it. */
  ghost predicate Valid(v: State) {
    && |v.dir| == ENTRIES
    && (forall i :: 0 <= i < ENTRIES && Present(v.dir[i]) ==> TableOk(v, i))
    && (forall i, j :: 0 <= i < j < ENTRIES && Present(v.dir[i]) && Present(v.dir[j]) ==>
          FrameOf(v.dir[i]) != FrameOf(v.dir[j]))
  }

  ghost predicate TableOk(v: State, i: nat)
    requires i < |v.dir|
  {
    var t := FrameOf(v.dir[i]);
    && t != 0 && t in v.tables && |v.tables[t]| == ENTRIES
    && Writable(v.dir[i])
    && (forall k :: 0 <= k < ENTRIES && User(v.tables[t][k]) ==> User(v.dir[i]))
  }

  /** No page table lies in a frame the allocator may still hand out. */
  ghost predicate TablesReserved(v: State, p: Pmm32.State) {
    forall t :: t in v.tables ==> !Pmm32.Available(p, t)
  }

  /** The hardware walk of virtual page `vp`. */
  function Translate(v: State, vp: nat): Option<Leaf>
    requires Valid(v) && vp < VIRTUAL_PAGES
  {
    var pde := v.dir[vp / ENTRIES];
    if !Present(pde) then None
    else
      assert TableOk(v, vp / ENTRIES);
      var pte := v.tables[FrameOf(pde)][vp % ENTRIES];
      if !Present(pte) then None
      else Some(Leaf(FrameOf(pte), Writable(pde) && Writable(pte), User(pde) && User(pte)))
  }

  /** The address space as a finite map from virtual page to frame and effective rights. */
  ghost function Mapping(v: State): map<nat, Leaf>
    requires Valid(v)
  {
    map vp | 0 <= vp < VIRTUAL_PAGES && Translate(v, vp).Some? :: Translate(v, vp).value
  }

  datatype Outcome = Outcome(vmm: State, pmm: Pmm32.State, ok: bool)
  datatype TableOutcome = TableOutcome(vmm: State, pmm: Pmm32.State, table: nat)

  function EmptyTable(): seq<nat> { seq(ENTRIES, _ => 0) }

  /** Writes word `k` of the table in frame `t`. */
  function Put(tables: map<nat, seq<nat>>, t: nat, k: nat, e: nat): map<nat, seq<nat>>
    requires t in tables && k < |tables[t]|
  {
    var row: seq<nat> := tables[t][k := e];
    tables[t := row]
  }

  /** `vmm_get_or_create_page_table`; table 0 is the failure result. */
  function GetOrCreate(v: State, p: Pmm32.State, vp: nat, flags: nat): TableOutcome
    requires |v.dir| == ENTRIES && vp < VIRTUAL_PAGES
  {
    var i := vp / ENTRIES;
    if Present(v.dir[i]) then
      var pde := if flags / 4 % 2 == 1 then WithUser(v.dir[i]) else v.dir[i];
      TableOutcome(v.(dir := v.dir[i := pde]), p, FrameOf(pde))
    else
      var a := Pmm32.Alloc(p);
      if a.page == 0 then TableOutcome(v, a.state, 0)
      else
        TableOutcome(
          v.(dir := v.dir[i := FrameOf(a.page) + 3 + flags / 4 % 2 * 4],
             tables := v.tables[a.page := EmptyTable()],
             created := v.created + 1),
          a.state, a.page)
  }

  /** `vmm_map_page`: unaligned addresses are rounded down. */
  function MapPage(v: State, p: Pmm32.State, va: nat, pa: nat, flags: nat): Outcome
    requires Valid(v) && Pmm32.Valid(p) && TablesReserved(v, p) && va < U32
  {
    if !v.ready || !ValidFlags(flags) then Outcome(v, p, false)
    else
      var vp := va / PAGE;
      GetOrCreateOk(v, p, vp, flags);
      var g := GetOrCreate(v, p, vp, flags);
      if g.table == 0 then Outcome(g.vmm, g.pmm, false)
      else
        assert TableOk(g.vmm, vp / ENTRIES);
        Outcome(g.vmm.(tables := Put(g.vmm.tables, g.table, vp % ENTRIES, FrameOf(pa) + 1 + flags)), g.pmm, true)
  }

  /** `vmm_unmap_page`. */
  function UnmapPage(v: State, va: nat): (r: (State, bool))
    requires Valid(v) && va < U32
  {
    var vp := va / PAGE;
    if !v.ready || Translate(v, vp).None? then (v, false)
    else
      assert TableOk(v, vp / ENTRIES);
      var t := FrameOf(v.dir[vp / ENTRIES]);
      (v.(tables := Put(v.tables, t, vp % ENTRIES, 0)), true)
  }

  /** `vmm_get_physical_address`; 0 when the page is not mapped. */
  function PhysicalAddress(v: State, va: nat): nat
    requires Valid(v) && va < U32
  {
    if !v.ready then 0
    else match Translate(v, va / PAGE)
         case None => 0
         case Some(leaf) => leaf.frame + va % PAGE
  }

  lemma LowBits(e: nat, k: nat, u: nat, w: nat, b: nat)
    requires u <= 1 && w <= 1 && b <= 1 && e == 8 * k + 4 * u + 2 * w + b
    ensures e % 2 == b && e / 2 % 2 == w && e / 4 % 2 == u && e / 8 == k
  {
    Quotient(e, 2, 4 * k + 2 * u + w, b);
    Quotient(4 * k + 2 * u + w, 2, 2 * k + u, w);
    Quotient(e, 4, 2 * k + u, 2 * w + b);
    Quotient(2 * k + u, 2, k, u);
    Quotient(e, 8, k, 4 * u + 2 * w + b);
  }

  lemma WithUserBits(e: nat)
    ensures User(WithUser(e))
    ensures Present(WithUser(e)) == Present(e) && Writable(WithUser(e)) == Writable(e)
    ensures FrameOf(WithUser(e)) == FrameOf(e)
  {
    if !User(e) {
      var k, low := e / 8, e % 8;
      var u, w, b := low / 4, low / 2 % 2, low % 2;
      LowBits(e, k, u, w, b);
      LowBits(e + 4, k, 1, w, b);
      PageOfOctet(e);
      PageOfOctet(e + 4);
    }
  }

  lemma PageOfOctet(e: nat)
    ensures e / PAGE == e / 8 / 512
  {
    var q, r := e / 8 / 512, e / 8 % 512;
    assert e == 4096 * q + 8 * r + e % 8;
  }

  lemma WordBits(frame: nat, u: nat, w: nat)
    requires frame % PAGE == 0 && u <= 1 && w <= 1
    ensures var e := frame + 4 * u + 2 * w + 1;
      Present(e) && FrameOf(e) == frame && (Writable(e) <==> w == 1) && (User(e) <==> u == 1)
  {
    var e, k := frame + 4 * u + 2 * w + 1, frame / PAGE;
    assert frame == 8 * (512 * k);
    LowBits(e, 512 * k, u, w, 1);
    PageOfOctet(e);
  }

  lemma EntryBits(frame: nat, flags: nat)
    requires ValidFlags(flags) && frame % PAGE == 0
    ensures var e := frame + 1 + flags;
      && Present(e) && FrameOf(e) == frame
      && (Writable(e) <==> flags == 2 || flags == 6)
      && (User(e) <==> flags == 4 || flags == 6)
  {
    WordBits(frame, if flags >= 4 then 1 else 0, if flags % 4 == 2 then 1 else 0);
  }

  ghost predicate SameWalks(v: State, w: State) {
    && Valid(v) && Valid(w)
    && forall vp :: 0 <= vp < VIRTUAL_PAGES ==> Translate(w, vp) == Translate(v, vp)
  }

  /** Setting the user bit of a directory word, which covers 1024 pages, changes no walk:
      a page with the user bit already had it above. */
  lemma RaiseUser(v: State, i: nat)
    requires Valid(v) && i < ENTRIES && Present(v.dir[i])
    ensures SameWalks(v, v.(dir := v.dir[i := WithUser(v.dir[i])]))
  {
    var w := v.(dir := v.dir[i := WithUser(v.dir[i])]);
    WithUserBits(v.dir[i]);
    forall k | 0 <= k < ENTRIES && Present(w.dir[k]) ensures TableOk(w, k) {
      assert TableOk(v, k);
    }
    assert Valid(w);
    forall vp | 0 <= vp < VIRTUAL_PAGES ensures Translate(w, vp) == Translate(v, vp) {
      if Present(v.dir[vp / ENTRIES]) {
        assert TableOk(v, vp / ENTRIES);
      }
    }
  }

  lemma NewTableBits(page: nat, flags: nat)
    requires ValidFlags(flags) && page % PAGE == 0
    ensures var e := FrameOf(page) + 3 + flags / 4 % 2 * 4;
      Present(e) && Writable(e) && FrameOf(e) == page && (User(e) <==> flags >= 4)
  {
    WordBits(page, if flags >= 4 then 1 else 0, 1);
  }

  /** Installing an empty table under a non-present directory word changes no walk. */
  lemma InstallTable(v: State, i: nat, page: nat, pde: nat)
    requires Valid(v) && i < ENTRIES && !Present(v.dir[i])
    requires page != 0 && page !in v.tables
    requires Present(pde) && Writable(pde) && FrameOf(pde) == page
    ensures SameWalks(v, v.(dir := v.dir[i := pde], tables := v.tables[page := EmptyTable()], created := v.created + 1))
  {
    var w := v.(dir := v.dir[i := pde], tables := v.tables[page := EmptyTable()], created := v.created + 1);
    forall k | 0 <= k < ENTRIES && Present(w.dir[k]) ensures TableOk(w, k) {
      if k != i {
        assert TableOk(v, k);
      }
    }
    forall j, k | 0 <= j < k < ENTRIES && Present(w.dir[j]) && Present(w.dir[k])
      ensures FrameOf(w.dir[j]) != FrameOf(w.dir[k])
    {
      if j != i { assert TableOk(v, j); }
      if k != i { assert TableOk(v, k); }
    }
    assert Valid(w);
    forall vp | 0 <= vp < VIRTUAL_PAGES ensures Translate(w, vp) == Translate(v, vp) {
      if vp / ENTRIES != i && Present(v.dir[vp / ENTRIES]) {
        assert TableOk(v, vp / ENTRIES);
      }
    }
  }

  lemma ReuseTable(v: State, i: nat, flags: nat)
    requires Valid(v) && i < ENTRIES && Present(v.dir[i]) && ValidFlags(flags)
    ensures var pde := if flags / 4 % 2 == 1 then WithUser(v.dir[i]) else v.dir[i];
      && SameWalks(v, v.(dir := v.dir[i := pde]))
      && FrameOf(pde) != 0 && Present(pde) && (flags >= 4 ==> User(pde))
  {
    assert TableOk(v, i);
    WithUserBits(v.dir[i]);
    RaiseUser(v, i);
    assert v.dir[i := v.dir[i]] == v.dir;
  }

  lemma CreateTable(v: State, p: Pmm32.State, vp: nat, flags: nat)
    requires Valid(v) && Pmm32.Valid(p) && TablesReserved(v, p)
    requires vp < VIRTUAL_PAGES && ValidFlags(flags)
    requires !Present(v.dir[vp / ENTRIES]) && Pmm32.Alloc(p).page != 0
    ensures var g := GetOrCreate(v, p, vp, flags); var a := Pmm32.Alloc(p); var i := vp / ENTRIES;
      && SameWalks(v, g.vmm) && Pmm32.Valid(a.state) && TablesReserved(g.vmm, a.state)
      && Present(g.vmm.dir[i]) && FrameOf(g.vmm.dir[i]) == a.page && (flags >= 4 ==> User(g.vmm.dir[i]))
      && a.page !in v.tables && g.vmm.tables.Keys == v.tables.Keys + {a.page}
  {
    var a := Pmm32.Alloc(p);
    Pmm32.AllocValid(p);
    NewTableBits(a.page, flags);
    InstallTable(v, vp / ENTRIES, a.page, FrameOf(a.page) + 3 + flags / 4 % 2 * 4);
  }

  /** Obtaining a table keeps the invariants and every page's walk; a new table comes from
      a frame that held none. */
  lemma GetOrCreateOk(v: State, p: Pmm32.State, vp: nat, flags: nat)
    requires Valid(v) && Pmm32.Valid(p) && TablesReserved(v, p)
    requires vp < VIRTUAL_PAGES && ValidFlags(flags)
    ensures var g := GetOrCreate(v, p, vp, flags); var i := vp / ENTRIES;
      && SameWalks(v, g.vmm) && Pmm32.Valid(g.pmm) && TablesReserved(g.vmm, g.pmm)
      && (g.table == 0 <==> !Present(v.dir[i]) && Pmm32.Alloc(p).page == 0)
      && (g.table == 0 ==> g.vmm == v && g.pmm == p)
      && (g.table != 0 ==> Present(g.vmm.dir[i]) && FrameOf(g.vmm.dir[i]) == g.table)
      && (g.table != 0 && flags >= 4 ==> User(g.vmm.dir[i]))
      && (Present(v.dir[i]) ==> g.pmm == p && g.vmm.tables == v.tables)
      && (!Present(v.dir[i]) && g.table != 0 ==>
            g.table !in v.tables && g.vmm.tables.Keys == v.tables.Keys + {g.table}
            && g.pmm == Pmm32.Alloc(p).state && g.table == Pmm32.Alloc(p).page)
  {
    if Present(v.dir[vp / ENTRIES]) {
      ReuseTable(v, vp / ENTRIES, flags);
    } else if Pmm32.Alloc(p).page != 0 {
      CreateTable(v, p, vp, flags);
    } else {
      Pmm32.AllocValid(p);
    }
  }

  /** Writing one word of an installed table changes exactly that page's walk. */
  lemma SetEntry(v: State, vp: nat, e: nat)
    requires Valid(v) && vp < VIRTUAL_PAGES && Present(v.dir[vp / ENTRIES])
    requires User(e) ==> User(v.dir[vp / ENTRIES])
    ensures FrameOf(v.dir[vp / ENTRIES]) in v.tables
    ensures var t := FrameOf(v.dir[vp / ENTRIES]);
      && |v.tables[t]| == ENTRIES
      && var w := v.(tables := Put(v.tables, t, vp % ENTRIES, e));
      && Valid(w)
      && Translate(w, vp) == (if Present(e) then Some(Leaf(FrameOf(e), Writable(e), User(e))) else None)
      && forall x :: 0 <= x < VIRTUAL_PAGES && x != vp ==> Translate(w, x) == Translate(v, x)
  {
    var i := vp / ENTRIES;
    assert TableOk(v, i);
    var t := FrameOf(v.dir[i]);
    var w := v.(tables := Put(v.tables, t, vp % ENTRIES, e));
    forall k | 0 <= k < ENTRIES && Present(w.dir[k]) ensures TableOk(w, k) {
      assert TableOk(v, k);
    }
    assert Valid(w);
    forall x | 0 <= x < VIRTUAL_PAGES && x != vp ensures Translate(w, x) == Translate(v, x) {
      if Present(v.dir[x / ENTRIES]) {
        assert TableOk(v, x / ENTRIES);
      }
    }
  }

  lemma InstallEntry(v: State, vp: nat, pa: nat, flags: nat)
    requires Valid(v) && vp < VIRTUAL_PAGES && Present(v.dir[vp / ENTRIES])
    requires ValidFlags(flags) && (flags >= 4 ==> User(v.dir[vp / ENTRIES]))
    ensures TableOk(v, vp / ENTRIES)
    ensures var t := FrameOf(v.dir[vp / ENTRIES]);
      var w := v.(tables := Put(v.tables, t, vp % ENTRIES, FrameOf(pa) + 1 + flags));
      && Valid(w) && w.tables.Keys == v.tables.Keys
      && Translate(w, vp) == Some(Leaf(FrameOf(pa), flags % 4 == 2, flags >= 4))
      && forall x :: 0 <= x < VIRTUAL_PAGES && x != vp ==> Translate(w, x) == Translate(v, x)
  {
    EntryBits(FrameOf(pa), flags);
    assert TableOk(v, vp / ENTRIES);
    SetEntry(v, vp, FrameOf(pa) + 1 + flags);
  }

  lemma InMapping(v: State, vp: nat)
    requires Valid(v)
    ensures vp in Mapping(v) <==> vp < VIRTUAL_PAGES && Translate(v, vp).Some?
    ensures vp in Mapping(v) ==> Mapping(v)[vp] == Translate(v, vp).value
  {
  }

  lemma MappingSet(v: State, w: State, vp: nat)
    requires Valid(v) && Valid(w) && vp < VIRTUAL_PAGES
    requires forall x :: 0 <= x < VIRTUAL_PAGES && x != vp ==> Translate(w, x) == Translate(v, x)
    ensures match Translate(w, vp)
            case None => Mapping(w) == Mapping(v) - {vp}
            case Some(leaf) => Mapping(w) == Mapping(v)[vp := leaf]
  {
    hide Valid, Translate, Mapping;
    forall x
      ensures x in Mapping(w) <==> (if x == vp then Translate(w, vp).Some? else x in Mapping(v))
      ensures x in Mapping(w) ==> Mapping(w)[x] == (if x == vp then Translate(w, vp).value else Mapping(v)[x])
    {
      InMapping(w, x);
      InMapping(v, x);
    }
  }

  /** Mapping refines a map update: the page gets the frame with exactly the rights asked
      for, and no other page changes frame or effective rights. It fails only for bad flags
      or when a table is needed and no frame is left, and then changes nothing. */
  lemma MapRefines(v: State, p: Pmm32.State, va: nat, pa: nat, flags: nat)
    requires Valid(v) && Pmm32.Valid(p) && TablesReserved(v, p) && va < U32
    ensures var r := MapPage(v, p, va, pa, flags); var i := va / PAGE / ENTRIES;
      && Valid(r.vmm) && Pmm32.Valid(r.pmm) && TablesReserved(r.vmm, r.pmm)
      && r.vmm.ready == v.ready
      && (r.ok <==> v.ready && ValidFlags(flags) && (Present(v.dir[i]) || Pmm32.Alloc(p).page != 0))
      && (!r.ok ==> r.vmm == v && r.pmm == p)
      && (r.ok ==> Mapping(r.vmm) == Mapping(v)[va / PAGE := Leaf(FrameOf(pa), flags % 4 == 2, flags >= 4)])
      && (r.ok && Present(v.dir[i]) ==> r.pmm == p && r.vmm.tables.Keys == v.tables.Keys)
      && (r.ok && !Present(v.dir[i]) ==>
            && r.pmm == Pmm32.Alloc(p).state && Pmm32.Alloc(p).page !in v.tables
            && r.vmm.tables.Keys == v.tables.Keys + {Pmm32.Alloc(p).page})
  {
    var r := MapPage(v, p, va, pa, flags);
    if v.ready && ValidFlags(flags) {
      var vp := va / PAGE;
      GetOrCreateOk(v, p, vp, flags);
      var g := GetOrCreate(v, p, vp, flags);
      if g.table != 0 {
        InstallEntry(g.vmm, vp, pa, flags);
        MappingSet(v, r.vmm, vp);
      }
    }
  }

  /** Mapping makes one directory word present and no other, and counts the tables it adds. */
  lemma MapDirectory(v: State, p: Pmm32.State, va: nat, pa: nat, flags: nat)
    requires Valid(v) && Pmm32.Valid(p) && TablesReserved(v, p) && va < U32 && MapPage(v, p, va, pa, flags).ok
    ensures var w := MapPage(v, p, va, pa, flags).vmm;
      && |w.dir| == |v.dir|
      && (forall i :: 0 <= i < |v.dir| ==> (Present(w.dir[i]) <==> Present(v.dir[i]) || i == va / PAGE / ENTRIES))
      && w.created + |v.tables| == v.created + |w.tables|
  {
    GetOrCreateOk(v, p, va / PAGE, flags);
    Pmm32.AllocFresh(p);
  }

  /** Unmapping refines removal of one key, and reports whether the key was there. */
  lemma UnmapRefines(v: State, va: nat)
    requires Valid(v) && va < U32 && v.ready
    ensures var r := UnmapPage(v, va);
      && Valid(r.0) && r.0.ready
      && r.0.tables.Keys == v.tables.Keys
      && Mapping(r.0) == Mapping(v) - {va / PAGE}
      && (r.1 <==> va / PAGE in Mapping(v))
  {
    var r := UnmapPage(v, va);
    var vp := va / PAGE;
    InMapping(v, vp);
    if r.1 {
      SetEntry(v, vp, 0);
      MappingSet(v, r.0, vp);
    }
  }

  /** Unmapping undoes a mapping of a page that was not mapped. */
  lemma MapUnmapInverse(v: State, p: Pmm32.State, va: nat, pa: nat, flags: nat)
    requires Valid(v) && Pmm32.Valid(p) && TablesReserved(v, p) && va < U32
    requires va / PAGE !in Mapping(v)
    ensures var r := MapPage(v, p, va, pa, flags);
      r.ok ==> Valid(r.vmm) && UnmapPage(r.vmm, va).1 && Valid(UnmapPage(r.vmm, va).0)
               && Mapping(UnmapPage(r.vmm, va).0) == Mapping(v)
  {
    hide Valid, Mapping, MapPage, UnmapPage;
    MapRefines(v, p, va, pa, flags);
    var r := MapPage(v, p, va, pa, flags);
    if r.ok {
      UnmapRefines(r.vmm, va);
    }
  }

  /** A lookup after a map sees the new frame at that page and the old answer elsewhere. */
  lemma LookupAfterMap(v: State, p: Pmm32.State, va: nat, pa: nat, flags: nat, x: nat)
    requires Valid(v) && Pmm32.Valid(p) && TablesReserved(v, p) && va < U32 && x < U32
    ensures var r := MapPage(v, p, va, pa, flags);
      r.ok ==> Valid(r.vmm) && PhysicalAddress(r.vmm, x) ==
               (if x / PAGE == va / PAGE then FrameOf(pa) + x % PAGE else PhysicalAddress(v, x))
  {
    MapRefines(v, p, va, pa, flags);
    var r := MapPage(v, p, va, pa, flags);
    InMapping(v, x / PAGE);
    InMapping(r.vmm, x / PAGE);
  }

  class PageMapper {
    var ready: bool
    var created: nat
    var tables: map<nat, seq<nat>>
    const directory: array<nat>
    const frames: Pmm32.FrameAllocator

    ghost predicate Shaped()
      reads this, frames
    {
      directory.Length == ENTRIES && frames.Shaped() && directory != frames.freeStack
    }

    ghost function Snapshot(): State
      requires Shaped()
      reads this, directory, frames
    {
      State(ready, directory[..], tables, created)
    }

    ghost predicate Consistent()
      requires Shaped()
      reads this, directory, frames, frames.freeStack
    {
      Valid(Snapshot()) && Pmm32.Valid(frames.Snapshot()) && TablesReserved(Snapshot(), frames.Snapshot())
    }

    /** `initial` is the directory the boot code enabled paging with, `boot` its tables. */
    constructor (allocator: Pmm32.FrameAllocator, initial: seq<nat>, boot: map<nat, seq<nat>>)
      requires |initial| == ENTRIES && allocator.Shaped()
      ensures frames == allocator && fresh(directory) && Shaped()
      ensures Snapshot() == State(true, initial, boot, 0)
    {
      ready, created, tables := true, 0, boot;
      frames := allocator;
      directory := new nat[ENTRIES](i requires 0 <= i < ENTRIES => initial[i]);
      new;
      assert directory[..] == initial;
    }

    method GetOrCreateTable(vp: nat, flags: nat) returns (table: nat)
      requires Shaped() && vp < VIRTUAL_PAGES
      modifies this, directory, frames
      ensures Shaped()
      ensures var g := GetOrCreate(old(Snapshot()), old(frames.Snapshot()), vp, flags);
        Snapshot() == g.vmm && frames.Snapshot() == g.pmm && table == g.table
    {
      var i := vp / ENTRIES;
      if Present(directory[i]) {
        if flags / 4 % 2 == 1 {
          directory[i] := WithUser(directory[i]);
        }
        return FrameOf(directory[i]);
      }
      table := frames.AllocPage();
      if table == 0 {
        return;
      }
      tables := tables[table := EmptyTable()];
      directory[i] := FrameOf(table) + 3 + flags / 4 % 2 * 4;
      created := created + 1;
    }

    method Map(va: nat, pa: nat, flags: nat) returns (ok: bool)
      requires Shaped() && Consistent() && va < U32
      modifies this, directory, frames
      ensures Shaped() && Consistent()
      ensures var r := MapPage(old(Snapshot()), old(frames.Snapshot()), va, pa, flags);
        Snapshot() == r.vmm && frames.Snapshot() == r.pmm && ok == r.ok
    {
      MapRefines(Snapshot(), frames.Snapshot(), va, pa, flags);
      if !ready || !ValidFlags(flags) {
        return false;
      }
      var vp := va / PAGE;
      GetOrCreateOk(Snapshot(), frames.Snapshot(), vp, flags);
      var table := GetOrCreateTable(vp, flags);
      if table == 0 {
        return false;
      }
      assert TableOk(Snapshot(), vp / ENTRIES);
      tables := Put(tables, table, vp % ENTRIES, FrameOf(pa) + 1 + flags);
      return true;
    }

    method Unmap(va: nat) returns (ok: bool)
      requires Shaped() && Consistent() && va < U32
      modifies this
      ensures Shaped() && Consistent()
      ensures (Snapshot(), ok) == UnmapPage(old(Snapshot()), va)
    {
      if !ready {
        return false;
      }
      UnmapRefines(Snapshot(), va);
      var vp := va / PAGE;
      if !Present(directory[vp / ENTRIES]) {
        return false;
      }
      assert TableOk(Snapshot(), vp / ENTRIES);
      var table := FrameOf(directory[vp / ENTRIES]);
      if !Present(tables[table][vp % ENTRIES]) {
        return false;
      }
      tables := Put(tables, table, vp % ENTRIES, 0);
      return true;
    }

    method IsMapped(va: nat) returns (mapped: bool)
      requires Shaped() && Consistent() && va < U32
      ensures mapped <==> ready && va / PAGE in Mapping(Snapshot())
    {
      var vp := va / PAGE;
      InMapping(Snapshot(), vp);
      if !ready || !Present(directory[vp / ENTRIES]) {
        return false;
      }
      assert TableOk(Snapshot(), vp / ENTRIES);
      return Present(tables[FrameOf(directory[vp / ENTRIES])][vp % ENTRIES]);
    }

    method GetPhysicalAddress(va: nat) returns (pa: nat)
      requires Shaped() && Consistent() && va < U32
      ensures pa == if ready && va / PAGE in Mapping(Snapshot())
                    then Mapping(Snapshot())[va / PAGE].frame + va % PAGE else 0
    {
      var vp := va / PAGE;
      InMapping(Snapshot(), vp);
      if !ready || !Present(directory[vp / ENTRIES]) {
        return 0;
      }
      assert TableOk(Snapshot(), vp / ENTRIES);
      var pte := tables[FrameOf(directory[vp / ENTRIES])][vp % ENTRIES];
      if !Present(pte) {
        return 0;
      }
      return FrameOf(pte) + va % PAGE;
    }
  }
}
