/** From an executable file to what the new process reads: exec and spawn end to end. */
module Exec64 {
  import opened MachineWords
  import opened UserLayout64
  import opened Wrappers
  import opened Paging64
  import opened AddressSpace64
  import opened Processes64
  import opened ProcessFrames64
  import opened ProcessCreate64
  import Elf64
  import F = ElfFormat64
  import Pmm64

  // ----- what a loaded process reads

  lemma CodeOffset(va: nat, count: nat)
    requires CODE_BASE <= va < CODE_BASE + count * PAGE && count <= MAX_PAGES
    ensures var k := (va - CODE_BASE) / PAGE;
      && k < count && PlaceOf(va, count) == CodePage(k) && va - CODE_BASE == k * PAGE + va % PAGE
  {
    PlaceRanges(va, count);
  }

  /** Through its own tables the process reads the staged bytes, then zeros, with user access
      throughout and write access on the marked pages only. */
  lemma ImageVisible(s: System, ctx: Context, pool: set<nat>, i: nat, m: Image, va: nat)
    requires Inv(s, ctx, pool) && i < |s.procs| && s.procs[i].life != Unused
    requires |m.staged| == IMAGE_MAX && AcceptableImage(m) && Loaded(s.mem, s.procs[i], m)
    requires CODE_BASE <= va < CODE_BASE + m.count * PAGE
    ensures var cr3, o := s.procs[i].space.cr3, va - CODE_BASE;
      && Walk(s.mem, cr3, va).Some? && Walk(s.mem, cr3, va).value.user
      && (Walk(s.mem, cr3, va).value.writable <==> o / PAGE in m.writable)
      && ByteAt(s.mem, cr3, va) == Some(if o < m.bytes then m.staged[o] else 0)
  {
    hide Walk, ByteAt, Built, SoundSource, Pmm64.Splits, Apart, HeldBy, PlaceOf, FrameOf, Pmm64.Distinct, CodeFlagsOf,
      PageImage;
    var p := s.procs[i];
    assert SlotOk(s.mem, ctx, p);
    CodeOffset(va, m.count);
    var k := (va - CODE_BASE) / PAGE;
    WalkOf(s.mem, ctx, p.space, p.flags, p.count, va);
    FramesListed(p.space);
    FlagAt(m, k);
    PageByte(m, k, va % PAGE);
    LeafByte(s.mem, p.space.cr3, va, p.space.code[k]);
  }

  /** A walk that ends in a data page reads the byte at the address's offset. */
  lemma LeafByte(mem: Memory, cr3: nat, va: nat, frame: nat)
    requires frame % PAGE == 0 && frame in mem && mem[frame].Data? && |mem[frame].bytes| == PAGE
    requires Walk(mem, cr3, va).Some? && Walk(mem, cr3, va).value.phys == frame + va % PAGE
    ensures ByteAt(mem, cr3, va) == Some(mem[frame].bytes[va % PAGE])
  {
    hide Walk, FrameOf;
    PageOfSum(frame, va);
  }

  lemma FlagAt(m: Image, k: nat)
    requires k < m.count <= MAX_PAGES
    ensures CodeFlagsOf(m)[k] == P_W_U <==> k in m.writable
  {
  }

  lemma PageByte(m: Image, k: nat, j: nat)
    requires |m.staged| == IMAGE_MAX && m.bytes <= IMAGE_MAX && k < m.count <= MAX_PAGES && j < PAGE
    ensures |PageImage(m, k)| == PAGE
    ensures PageImage(m, k)[j] == if k * PAGE + j < m.bytes then m.staged[k * PAGE + j] else 0
  {
  }

  /** The stack page reads zero and is writable. */
  lemma StackVisible(s: System, ctx: Context, pool: set<nat>, i: nat, m: Image, va: nat)
    requires Inv(s, ctx, pool) && i < |s.procs| && s.procs[i].life != Unused
    requires |m.staged| == IMAGE_MAX && AcceptableImage(m) && Loaded(s.mem, s.procs[i], m)
    requires STACK_PAGE <= va < STACK_TOP
    ensures var cr3 := s.procs[i].space.cr3;
      && Walk(s.mem, cr3, va).Some? && Walk(s.mem, cr3, va).value.user && Walk(s.mem, cr3, va).value.writable
      && ByteAt(s.mem, cr3, va) == Some(0)
  {
    hide Walk, ByteAt, Built, SoundSource, Pmm64.Splits, Apart, HeldBy, PlaceOf, FrameOf, Pmm64.Distinct, CodeFlagsOf,
      PageImage;
    var p := s.procs[i];
    assert SlotOk(s.mem, ctx, p);
    PlaceRanges(va, p.count);
    WalkOf(s.mem, ctx, p.space, p.flags, p.count, va);
    FramesListed(p.space);
    LeafByte(s.mem, p.space.cr3, va, p.space.stack);
  }

  // ----- from a file

  /** The arguments exec passes on after loading. */
  function ImageOf(file: seq<nat>): Image
    requires Elf64.HeaderOk(file)
  {
    var n := Elf64.SegmentCount(file);
    Image(Elf64.Staged(file, n), Elf64.ImageEnd(file, n), Elf64.EntryOf(file),
      (Elf64.ImageEnd(file, n) + PAGE - 1) / PAGE,
          Elf64.WritablePages(file, n))
  }

  /** Every file the loader accepts is an image creation accepts. */
  lemma AcceptedImage(file: seq<nat>)
    requires Elf64.Accepted(file)
    ensures AcceptableImage(ImageOf(file)) && |ImageOf(file).staged| == IMAGE_MAX
  {
    hide Elf64.HeaderOk, Elf64.SegmentAt, Elf64.SegmentCount, Elf64.ImageEnd, Elf64.EntryOf, Elf64.Staged;
    Elf64.HeaderSize(file);
    var n := Elf64.SegmentCount(file);
    Elf64.EndBound(file, n);
    var i := EntrySegment(file);
    Elf64.EndCovers(file, n, i);
  }

  lemma EntrySegment(file: seq<nat>) returns (i: nat)
    requires Elf64.Accepted(file)
    ensures i < Elf64.SegmentCount(file)
    ensures var g := Elf64.SegmentAt(file, i);
      g.Loads() && g.Executes() && g.Ok(|file|) && g.vaddr <= Elf64.EntryOf(file) < g.vaddr + g.memsz
  {
    hide Elf64.HeaderOk, Elf64.SegmentAt, Elf64.SegmentCount, Elf64.EntryOf;
    Elf64.HeaderSize(file);
    i :| 0 <= i < Elf64.SegmentCount(file) && Elf64.SegmentAt(file, i).Loads() && Elf64.SegmentAt(file, i).Executes()
      && Elf64.SegmentAt(file, i).vaddr <= Elf64.EntryOf(file) < Elf64.SegmentAt(file, i).vaddr
        + Elf64.SegmentAt(file, i).memsz;
  }

  lemma BeyondEnd(file: seq<nat>, o: nat)
    requires Elf64.Accepted(file) && Elf64.ImageEnd(file, Elf64.SegmentCount(file)) <= o
    ensures Elf64.FileByte(file, Elf64.SegmentCount(file), o) == None
  {
    hide Elf64.HeaderOk, Elf64.SegmentAt, Elf64.SegmentCount, Elf64.ImageEnd;
    Elf64.HeaderSize(file);
    var n := Elf64.SegmentCount(file);
    forall j | 0 <= j < n ensures !Elf64.SegmentAt(file, j).Provides(o) {
      if Elf64.SegmentAt(file, j).Loads() {
        assert Elf64.SegmentAt(file, j).Ok(|file|);
        Elf64.EndCovers(file, n, j);
      }
    }
    Elf64.NoneProvides(file, n, o);
  }

  lemma StagedAt(file: seq<nat>, n: nat, o: nat)
    requires Elf64.HeaderOk(file) && n <= Elf64.SegmentCount(file) && o < IMAGE_MAX
    ensures Elf64.Staged(file, n)[o] == Elf64.OrZero(Elf64.FileByte(file, n, o))
  {
    hide Elf64.HeaderOk, Elf64.FileByte, Elf64.SegmentCount;
  }

  /** The byte of the image at offset `o`. */
  lemma ImageByte(file: seq<nat>, o: nat)
    requires Elf64.Accepted(file) && o < IMAGE_MAX
    ensures |ImageOf(file).staged| == IMAGE_MAX
    ensures (if o < ImageOf(file).bytes then ImageOf(file).staged[o] else 0) ==
      Elf64.OrZero(Elf64.FileByte(file, Elf64.SegmentCount(file), o))
  {
    hide Elf64.HeaderOk, Elf64.FileByte, Elf64.SegmentCount, Elf64.Staged, Elf64.ImageEnd;
    Elf64.HeaderSize(file);
    StagedAt(file, Elf64.SegmentCount(file), o);
    if o >= ImageOf(file).bytes {
      BeyondEnd(file, o);
    }
  }

  /** Exec of an accepted file fails only for want of a slot or of twelve pages, and strays only
      when it gets to write a page outside the kernel's window. Otherwise the new process, at every
      mapped code address, reads the file byte of the last segment providing it or zero, and may
      write exactly the pages a writable segment touches. */
  lemma ExecCorrect(s: System, ctx: Context, pool: set<nat>, file: seq<nat>, va: nat)
    requires Inv(s, ctx, pool) && Elf64.Accepted(file)
    requires CODE_BASE <= va < CODE_BASE + ImageOf(file).count * PAGE
    ensures Shaped(s) && |ImageOf(file).staged| == IMAGE_MAX
    ensures CreateUser(s, ImageOf(file)).0.strayed <==> FindUnused(s.procs).Some? && Strays(s.pmm)
    ensures var r := CreateUser(s, ImageOf(file));
      if FindUnused(s.procs).None? || |s.pmm.stack| < FRAMES_PER_PROCESS then
        r.1 == 0 && (r.0.strayed || SameProcesses(s, r.0))
      else if Strays(s.pmm) then r.1 == 0
      else
        var i := FindUnused(s.procs).value;
        && r.1 == s.nextPid && i < |r.0.procs|
        && var p, n, o := r.0.procs[i], Elf64.SegmentCount(file), va - CODE_BASE;
        && p.life == Ready && p.userEntry == Elf64.EntryOf(file)
        && ByteAt(r.0.mem, p.space.cr3, va) == Some(Elf64.OrZero(Elf64.FileByte(file, n, o)))
        && Walk(r.0.mem, p.space.cr3, va).Some? && Walk(r.0.mem, p.space.cr3, va).value.user
        && (Walk(r.0.mem, p.space.cr3, va).value.writable <==> o / PAGE in Elf64.WritablePages(file, n))
  {
    hide Inv, CreateUser, Walk, ByteAt, Elf64.HeaderOk, Elf64.FileByte, Elf64.SegmentCount, Elf64.Staged,
      Elf64.ImageEnd, Elf64.WritablePages, Elf64.EntryOf, Shaped, FindUnused, WritesFreeOnly, Strays;
    var m := ImageOf(file);
    AcceptedImage(file);
    CreateUserExact(s, ctx, pool, m);
    if FindUnused(s.procs).Some? && |s.pmm.stack| >= FRAMES_PER_PROCESS && !Strays(s.pmm) {
      var i := FindUnused(s.procs).value;
      ImageVisible(CreateUser(s, m).0, ctx, pool, i, m, va);
      ImageByte(file, va - CODE_BASE);
    }
  }

  // ----- in terms of the file format

  /** The segment's file bytes reach to address `va`. */
  predicate Fills(g: F.Program, va: nat) { F.Loaded(g) && g.vaddr <= va < g.vaddr + g.filesz }

  /** The segment ends past the start of the page of `va`. */
  predicate EndsPast(g: F.Program, va: nat) { F.Loaded(g) && va / PAGE * PAGE < g.vaddr + g.memsz }

  /** The segment is writable and has memory in the page of `va`. */
  predicate WritesPage(g: F.Program, va: nat) {
    EndsPast(g, va) && g.vaddr < va / PAGE * PAGE + PAGE && g.flags / 2 % 2 == 1
  }

  /** The segments the loader sees are the ones encoded. */
  ghost predicate Same(file: seq<nat>, ps: seq<F.Program>)
    requires Elf64.HeaderOk(file)
  {
    && Elf64.SegmentCount(file) == |ps|
    && forall i :: 0 <= i < |ps| ==> SameSegment(Elf64.SegmentAt(file, i), ps[i])
  }

  predicate SameSegment(g: Elf64.Segment, p: F.Program) {
    && g.kind == p.kind && g.flags == p.flags && g.offset == p.offset && g.vaddr == p.vaddr
    && g.filesz == p.filesz && g.memsz == p.memsz && g.align == p.align
  }

  lemma SameSegments(file: seq<nat>, h: F.Header, ps: seq<F.Program>)
    requires F.Encodes(file, h, ps) && F.Runs(h, ps, |file|)
    ensures Elf64.Accepted(file) && Same(file, ps) && Elf64.EntryOf(file) == h.entry
  {
    hide F.Encodes, F.Runs, Elf64.SegmentAt, Elf64.HeaderOk, Elf64.EntryOf, Elf64.SegmentCount, Elf64.SegmentsOk,
      Elf64.EntryCovered;
    F.AcceptedExactly(file, h, ps);
    F.ReadsHeader(file, h, ps);
    forall i | 0 <= i < |ps| ensures SameSegment(Elf64.SegmentAt(file, i), ps[i]) {
      F.ReadsProgram(file, h, ps, i);
    }
  }

  /** The code pages end with the last segment. */
  lemma MappedExactly(file: seq<nat>, ps: seq<F.Program>, va: nat)
    requires Elf64.Accepted(file) && Same(file, ps) && CODE_BASE <= va
    ensures va < CODE_BASE + ImageOf(file).count * PAGE <==> exists k :: 0 <= k < |ps| && EndsPast(ps[k], va)
  {
    hide Elf64.HeaderOk, Elf64.SegmentAt, Elf64.SegmentCount, Elf64.ImageEnd, Elf64.EntryOf, Elf64.Staged,
      Elf64.WritablePages;
    Elf64.HeaderSize(file);
    var n := |ps|;
    var end := Elf64.ImageEnd(file, n);
    PageStart(va, end);
    if k :| 0 <= k < |ps| && EndsPast(ps[k], va) {
      assert SameSegment(Elf64.SegmentAt(file, k), ps[k]);
      Elf64.EndCovers(file, n, k);
    }
    if va < CODE_BASE + ImageOf(file).count * PAGE {
      assert end > 0;
      Elf64.EndReached(file, n);
      var i :| 0 <= i < n && Elf64.SegmentAt(file, i).Loads()
        && Elf64.SegmentAt(file, i).vaddr + Elf64.SegmentAt(file, i).memsz == CODE_BASE + end;
      assert SameSegment(Elf64.SegmentAt(file, i), ps[i]);
      assert EndsPast(ps[i], va);
    }
  }

  lemma PageStart(va: nat, end: nat)
    requires CODE_BASE <= va
    ensures va < CODE_BASE + (end + PAGE - 1) / PAGE * PAGE <==> va / PAGE * PAGE < CODE_BASE + end
  {
  }

  lemma WritableExactly(file: seq<nat>, ps: seq<F.Program>, va: nat)
    requires Elf64.Accepted(file) && Same(file, ps) && CODE_BASE <= va < CODE_BASE + IMAGE_MAX
    ensures (va - CODE_BASE) / PAGE in Elf64.WritablePages(file, |ps|) <==>
      exists k :: 0 <= k < |ps| && WritesPage(ps[k], va)
  {
    hide Elf64.HeaderOk, Elf64.SegmentAt, Elf64.SegmentCount, Elf64.WritablePages;
    Elf64.HeaderSize(file);
    var p := (va - CODE_BASE) / PAGE;
    Elf64.WritableMeans(file, |ps|, p);
    assert va / PAGE * PAGE == CODE_BASE + p * PAGE;
    if k :| 0 <= k < |ps| && WritesPage(ps[k], va) {
      assert SameSegment(Elf64.SegmentAt(file, k), ps[k]);
      assert Elf64.SegmentAt(file, k).Touches(p);
    }
    if p in Elf64.WritablePages(file, |ps|) {
      var i :| 0 <= i < |ps| && Elf64.SegmentAt(file, i).Loads() && Elf64.SegmentAt(file, i).Writes()
        && Elf64.SegmentAt(file, i).Touches(p);
      assert SameSegment(Elf64.SegmentAt(file, i), ps[i]);
      assert WritesPage(ps[i], va);
    }
  }

  /** The byte staged for `va` is that of the last segment filling it, or zero. */
  ghost predicate RightByte(file: seq<nat>, ps: seq<F.Program>, va: nat, b: nat) {
    && (forall k :: 0 <= k < |ps| && Fills(ps[k], va) && (forall j :: k < j < |ps| ==> !Fills(ps[j], va)) ==>
          va - ps[k].vaddr + ps[k].offset < |file| && b == file[va - ps[k].vaddr + ps[k].offset])
    && ((forall k :: 0 <= k < |ps| ==> !Fills(ps[k], va)) ==> b == 0)
  }

  lemma BytesExactly(file: seq<nat>, ps: seq<F.Program>, va: nat)
    requires Elf64.Accepted(file) && Same(file, ps) && CODE_BASE <= va
    ensures RightByte(file, ps, va, Elf64.OrZero(Elf64.FileByte(file, |ps|, va - CODE_BASE)))
  {
    hide Elf64.HeaderOk, Elf64.SegmentAt, Elf64.SegmentCount, Elf64.FileByte;
    Elf64.HeaderSize(file);
    var o := va - CODE_BASE;
    forall k | 0 <= k < |ps| ensures Elf64.SegmentAt(file, k).Provides(o) <==> Fills(ps[k], va) {
      assert SameSegment(Elf64.SegmentAt(file, k), ps[k]);
    }
    forall k | 0 <= k < |ps| && Fills(ps[k], va) && (forall j :: k < j < |ps| ==> !Fills(ps[j], va))
      ensures va - ps[k].vaddr + ps[k].offset < |file|
      ensures Elf64.FileByte(file, |ps|, o) == Some(file[va - ps[k].vaddr + ps[k].offset])
    {
      Elf64.LastWins(file, |ps|, o, k);
      assert SameSegment(Elf64.SegmentAt(file, k), ps[k]);
    }
    if forall k :: 0 <= k < |ps| ==> !Fills(ps[k], va) {
      Elf64.NoneProvides(file, |ps|, o);
    }
  }

  /** Exec in terms of the file format: a file that encodes a runnable program becomes a ready
      process entered at the header's entry; an address of the code slot is mapped exactly up to
      the page where the last segment ends, user-accessible, writable exactly where a writable
      segment has memory in the page, and reads the byte of the last segment filling it or zero. */
  lemma ExecRuns(s: System, ctx: Context, pool: set<nat>, file: seq<nat>, h: F.Header, ps: seq<F.Program>, va: nat)
    requires Inv(s, ctx, pool) && F.Encodes(file, h, ps) && F.Runs(h, ps, |file|)
    requires FindUnused(s.procs).Some? && |s.pmm.stack| >= FRAMES_PER_PROCESS && !Strays(s.pmm)
    requires CODE_BASE <= va < CODE_SLOT_END
    ensures Shaped(s) && Elf64.HeaderOk(file) && |ImageOf(file).staged| == IMAGE_MAX
    ensures var r, i := CreateUser(s, ImageOf(file)), FindUnused(s.procs).value;
      && r.1 == s.nextPid && !r.0.strayed && i < |r.0.procs|
      && var p := r.0.procs[i];
      var l := Walk(r.0.mem, p.space.cr3, va);
      && p.life == Ready && p.mode == UserMode && p.userEntry == h.entry
      && (l.Some? <==> exists k :: 0 <= k < |ps| && EndsPast(ps[k], va))
      && (l.Some? ==>
            && l.value.user && (l.value.writable <==> exists k :: 0 <= k < |ps| && WritesPage(ps[k], va))
            && ByteAt(r.0.mem, p.space.cr3, va).Some?
            && RightByte(file, ps, va, ByteAt(r.0.mem, p.space.cr3, va).value))
  {
    hide Inv, CreateUser, Walk, ByteAt, Elf64.HeaderOk, Elf64.FileByte, Elf64.SegmentCount, Elf64.Staged,
      Elf64.ImageEnd, Elf64.WritablePages, Elf64.EntryOf, Shaped, FindUnused, WritesFreeOnly, Strays, F.Encodes, F.Runs,
      RightByte, EndsPast, WritesPage, Elf64.SegmentsOk, Elf64.EntryCovered, Elf64.SegmentAt, AcceptableImage, Same;
    SameSegments(file, h, ps);
    AcceptedImage(file);
    var m := ImageOf(file);
    CreateUserExact(s, ctx, pool, m);
    MappedExactly(file, ps, va);
    assert Elf64.SegmentCount(file) == |ps| by { SameCount(file, ps); }
    var i := FindUnused(s.procs).value;
    var t := CreateUser(s, m).0;
    CountBound(m);
    if va < CODE_BASE + m.count * PAGE {
      ExecCorrect(s, ctx, pool, file, va);
      BytesExactly(file, ps, va);
      WritableExactly(file, ps, va);
    } else {
      HoleUnmapped(t, ctx, pool, i, m, va);
    }
  }

  lemma CountBound(m: Image)
    requires AcceptableImage(m)
    ensures m.count * PAGE <= IMAGE_MAX && m.bytes <= IMAGE_MAX
  {
  }

  lemma SameCount(file: seq<nat>, ps: seq<F.Program>)
    requires Elf64.HeaderOk(file) && Same(file, ps)
    ensures |file| >= Elf64.HEADER_BYTES && Elf64.SegmentCount(file) == |ps|
  {
  }

  /** Past its code pages the rest of the code slot is not mapped. */
  lemma HoleUnmapped(s: System, ctx: Context, pool: set<nat>, i: nat, m: Image, va: nat)
    requires Inv(s, ctx, pool) && i < |s.procs| && s.procs[i].life != Unused
    requires |m.staged| == IMAGE_MAX && m.bytes <= IMAGE_MAX && Loaded(s.mem, s.procs[i], m)
    requires CODE_BASE + m.count * PAGE <= va < CODE_SLOT_END
    ensures Walk(s.mem, s.procs[i].space.cr3, va) == None
  {
    hide Walk, Built, SoundSource, Pmm64.Splits, Apart, HeldBy, PlaceOf, FrameOf, Pmm64.Distinct, CodeFlagsOf,
      PageImage;
    var p := s.procs[i];
    assert SlotOk(s.mem, ctx, p);
    PlaceRanges(va, p.count);
    WalkOf(s.mem, ctx, p.space, p.flags, p.count, va);
  }
}
