/** What each operation on the x86_64 process table does to the fields of the slot it is about,
    and that it leaves everything else alone. */
module ProcessLaws64 {
  import opened MachineWords
  import opened UserLayout64
  import opened Wrappers
  import opened Paging64
  import opened AddressSpace64
  import opened SpaceInstall64
  import opened Processes64
  import opened ProcessFrames64
  import opened ProcessCreate64
  import opened ProcessRuns64
  import opened ProcessPids64
  import opened ProcessSelect64
  import Finite
  import Pmm64
  import RR = RoundRobin

  /** Slot `k` is in use under this pid. */
  predicate Has(s: System, k: nat, pid: nat) { k < |s.procs| && s.procs[k].life != Unused && s.procs[k].pid == pid }

  lemma PidAbsent(s: System, pid: nat)
    requires forall k :: 0 <= k < |s.procs| ==> !Has(s, k, pid)
    ensures FindPid(s.procs, pid) == None
  {
    var r := FindPid(s.procs, pid);
    assert r.Some? ==> Has(s, r.value, pid);
  }

  /** Marking a pid exited sets the life and the exit code of the user process it names, and
      nothing else; a kernel process or an unknown pid changes nothing. */
  lemma MarkExitedExactly(s: System, pid: nat, code: nat)
    requires PidsUnique(s)
    ensures forall k :: 0 <= k < |s.procs| && Has(s, k, pid) ==>
      MarkExited(s, pid, code) ==
        if s.procs[k].mode == UserMode
        then s.(procs := s.procs[k := s.procs[k].(life := Exited, exitCode := code)]) else s
    ensures (forall k :: 0 <= k < |s.procs| ==> !Has(s, k, pid)) ==> MarkExited(s, pid, code) == s
  {
    hide PidsUnique, FindPid;
    forall k | 0 <= k < |s.procs| && Has(s, k, pid) ensures FindPid(s.procs, pid) == Some(k) {
      PidFindsSlot(s, k);
    }
    if forall k :: 0 <= k < |s.procs| ==> !Has(s, k, pid) {
      PidAbsent(s, pid);
    }
  }

  /** Reaping a pid empties its slot and returns its twelve pages if it is a user process that
      exited or failed; a process still ready or running, a kernel process or an unknown pid
      changes nothing at all. */
  lemma ReapExactly(s: System, ctx: Context, pool: set<nat>, pid: nat)
    requires Inv(s, ctx, pool) && PidsUnique(s)
    ensures forall k :: 0 <= k < |s.procs| && Has(s, k, pid) ==>
      var t, p := Reap(s, pid), s.procs[k];
      if p.mode == UserMode && (p.life == Exited || p.life == Failed) then
        && t == s.(pmm := t.pmm, procs := s.procs[k := EMPTY])
        && Finite.Elements(t.pmm.stack) == Finite.Elements(s.pmm.stack) + Owned(p)
        && |t.pmm.stack| == |s.pmm.stack| + 12
      else t == s
    ensures (forall k :: 0 <= k < |s.procs| ==> !Has(s, k, pid)) ==> Reap(s, pid) == s
  {
    hide PidsUnique, FindPid, Inv, ReapSlot, Owned, Finite.Elements;
    forall k | 0 <= k < |s.procs| && Has(s, k, pid)
      ensures FindPid(s.procs, pid) == Some(k)
      ensures ReapSlot(s, k) == s.(pmm := ReapSlot(s, k).pmm, procs := s.procs[k := EMPTY])
      ensures |ReapSlot(s, k).pmm.stack| == |s.pmm.stack| + 12
      ensures Finite.Elements(ReapSlot(s, k).pmm.stack) == Finite.Elements(s.pmm.stack) + Owned(s.procs[k])
    {
      PidFindsSlot(s, k);
      ReapSlotExact(s, ctx, pool, k);
      ReturnedPages(s, ReapSlot(s, k), ctx, pool, k);
    }
    if forall k :: 0 <= k < |s.procs| ==> !Has(s, k, pid) {
      PidAbsent(s, pid);
    }
  }

  lemma ReturnedPages(s: System, t: System, ctx: Context, pool: set<nat>, k: nat)
    requires Inv(s, ctx, pool) && Inv(t, ctx, pool) && k < |s.procs| && t.procs == s.procs[k := EMPTY]
    ensures Finite.Elements(t.pmm.stack) == Finite.Elements(s.pmm.stack) + Owned(s.procs[k])
  {
    hide Owned, HeldBy, SlotOk, SourceOk, Finite.Elements, Pmm64.Splits;
    FreeIsRest(s, ctx, pool);
    FreeIsRest(t, ctx, pool);
    HeldReplace(s.procs, k, EMPTY);
    EmptyOwnsNothing();
    SlotHeld(s.procs, k);
    OwnedInPool(s, ctx, pool, k);
  }

  /** The life of a user process: created it is ready and cannot be reaped; once it exited,
      reaping it restores the table and the set of free pages. */
  lemma CreateExitReap(s: System, ctx: Context, pool: set<nat>, m: Image, code: nat)
    requires Inv(s, ctx, pool) && PidsUnique(s) && 0 < s.nextPid < U32 - 1
    requires |m.staged| == IMAGE_MAX && AcceptableImage(m)
    requires FindUnused(s.procs).Some? && |s.pmm.stack| >= FRAMES_PER_PROCESS && !Strays(s.pmm)
    ensures Shaped(s)
    ensures var created, pid := CreateUser(s, m).0, s.nextPid;
      var i, exited := FindUnused(s.procs).value, MarkExited(created, pid, code);
      var reaped := Reap(exited, pid);
      && !created.strayed && CreateUser(s, m).1 == pid && Reap(created, pid) == created
      && i < |exited.procs| && exited.procs[i].life == Exited && exited.procs[i].exitCode == code
      && reaped.procs == s.procs && Finite.Elements(reaped.pmm.stack) == Finite.Elements(s.pmm.stack)
  {
    hide Inv, CreateUser, Shaped, HeldBy, FindUnused, WritesFreeOnly, Loaded, Reap, MarkExited, Strays, AcceptableImage,
      PidsUnique, Owned;
    CreateUserExact(s, ctx, pool, m);
    var i, created, pid := FindUnused(s.procs).value, CreateUser(s, m).0, s.nextPid;
    CreatedUserPids(s, ctx, pool, m);
    assert Has(created, i, pid)
      && created.procs[i].mode == UserMode by { LoadedMode(created.mem, created.procs[i], m); }
    ReapExactly(created, ctx, pool, pid);
    MarkExitedExactly(created, pid, code);
    var exited := MarkExited(created, pid, code);
    SlotRelabelled(created, ctx, pool, i, exited.procs[i]);
    RelabelledPids(created, i, exited.procs[i]);
    assert Has(exited, i, pid);
    ReapExactly(exited, ctx, pool, pid);
    var reaped := Reap(exited, pid);
    assert reaped.procs == s.procs;
    StepKeeps(exited, ctx, pool, ReapPid(pid));
    InvPlain(exited, ctx, pool);
    assert Step(exited, ReapPid(pid)) == reaped;
    FreeIsRest(s, ctx, pool);
    FreeIsRest(reaped, ctx, pool);
  }

  lemma LoadedMode(mem: Memory, p: Process, m: Image)
    requires |m.staged| == IMAGE_MAX && AcceptableImage(m) && Loaded(mem, p, m)
    ensures p.mode == UserMode && p.userEntry == m.entry && p.count == m.count
  {
  }

  /** A kernel process that is ready runs to its end: it is exited with code 0 and has left its
      bytes in its stack page. Any other slot is not run. */
  lemma RunExactly(s: System, ctx: Context, pool: set<nat>, i: nat, left: seq<nat>)
    requires Inv(s, ctx, pool) && i < |s.procs|
    ensures var p := s.procs[i];
      RunSlot(s, i, left) ==
        if p.life == Ready && p.mode == Kernel && p.entry != 0
        then s.(mem := s.mem[p.kernelStack := Data(left)], procs := s.procs[i := p.(life := Exited, exitCode := 0)])
        else s
  {
    hide Built, SourceOk, Pmm64.Splits, HeldBy, Apart, Aligned, Pmm64.Distinct, Reached;
    var p := s.procs[i];
    assert SlotOk(s.mem, ctx, p);
    if p.life == Ready {
      assert Frames(p)[0] == p.space.cr3 && Frames(p)[|Frames(p)| - 1] == p.kernelStack;
    }
  }

  /** A user image is accepted exactly for 1 to 16384 bytes on one to four pages with the entry
      inside them; then the process is created if there is a free slot and twelve pages that the
      kernel can write, and the result is its pid. */
  lemma UserCreationReported(s: System, ctx: Context, pool: set<nat>, m: Image)
    requires Inv(s, ctx, pool) && |m.staged| == IMAGE_MAX
    ensures Shaped(s)
    ensures CreateUser(s, m).1 != 0 <==>
      && s.nextPid != 0 && 1 <= m.bytes <= 16384 && 1 <= m.count <= 4
      && 0x40_0000 <= m.entry < 0x40_0000 + m.count * 4096
      && (exists i :: 0 <= i < |s.procs| && s.procs[i].life == Unused)
      && |s.pmm.stack| >= 12 && !Strays(s.pmm)
  {
    hide Inv, CreateUser, Shaped, WritesFreeOnly, Strays, Loaded;
    CreateUserExact(s, ctx, pool, m);
    assert FindUnused(s.procs).Some? ==> s.procs[FindUnused(s.procs).value].life == Unused;
  }

  // ----- user stores

  /** A store through a writable user address is read back at that address, and at every other
      user address of the process the old byte is; any other store does nothing. */
  lemma StoreReadBack(s: System, ctx: Context, pool: set<nat>, i: nat, va: nat, value: nat, other: nat)
    requires Inv(s, ctx, pool) && i < |s.procs| && s.procs[i].life != Unused
    requires ByteAt(s.mem, s.procs[i].space.cr3, va).Some?
    requires var place := PlaceOf(other, s.procs[i].count); place.CodePage? || place.Stack?
    ensures var t, cr3 := Store(s, i, va, value), s.procs[i].space.cr3;
      var l := Walk(s.mem, cr3, va).value;
      if l.user && l.writable then
        && ByteAt(t.mem, cr3, va) == Some(value)
        && Walk(t.mem, cr3, other) == Walk(s.mem, cr3, other) && Walk(s.mem, cr3, other).Some?
        && (Walk(s.mem, cr3, other).value.phys != l.phys ==> ByteAt(t.mem, cr3, other) == ByteAt(s.mem, cr3, other))
      else t == s
  {
    hide Inv, Walk, PlaceOf, FrameOf;
    var t, p := Store(s, i, va, value), s.procs[i];
    var cr3, l := p.space.cr3, Walk(s.mem, p.space.cr3, va).value;
    if l.user && l.writable {
      StoreKeeps(s, ctx, pool, i, va, value);
      SameWalk(s, t, ctx, pool, i, other);
      UserPlace(s, ctx, pool, i, va);
      SameWalk(s, t, ctx, pool, i, va);
      var f, g := FrameOf(l.phys), FrameOf(Walk(s.mem, cr3, other).value.phys);
      SplitAddress(l.phys);
      SplitAddress(Walk(s.mem, cr3, other).value.phys);
    }
  }

  lemma SplitAddress(phys: nat)
    ensures phys == FrameOf(phys) + phys % PAGE
  {
  }

  /** User mode reaches only code and stack addresses. */
  lemma UserPlace(s: System, ctx: Context, pool: set<nat>, i: nat, va: nat)
    requires Inv(s, ctx, pool) && i < |s.procs| && s.procs[i].life != Unused
    requires Walk(s.mem, s.procs[i].space.cr3, va).Some? && Walk(s.mem, s.procs[i].space.cr3, va).value.user
    ensures var place := PlaceOf(va, s.procs[i].count); place.CodePage? || place.Stack?
  {
    hide Built, SoundSource, Walk, Pmm64.Splits, Apart, Pmm64.Distinct, PlaceOf, HeldBy, FramesOf, Reached;
    var p := s.procs[i];
    assert SlotOk(s.mem, ctx, p);
    WalkOf(s.mem, ctx, p.space, p.flags, p.count, va);
    var place := PlaceOf(va, p.count);
    if place.Low? || place.High3? || place.High4? {
      SourceClosed(s.mem, ctx, va, p.count);
    }
  }

  /** The walk of a code or stack address is the same before and after. */
  lemma SameWalk(s: System, t: System, ctx: Context, pool: set<nat>, i: nat, va: nat)
    requires Inv(s, ctx, pool) && Inv(t, ctx, pool) && i < |s.procs| && s.procs[i].life != Unused
    requires t.procs == s.procs
    requires var place := PlaceOf(va, s.procs[i].count); place.CodePage? || place.Stack?
    ensures Walk(t.mem, t.procs[i].space.cr3, va) == Walk(s.mem, s.procs[i].space.cr3, va)
    ensures Walk(s.mem, s.procs[i].space.cr3, va).Some?
  {
    hide Built, SoundSource, Walk, Pmm64.Splits, Apart, Pmm64.Distinct, PlaceOf, HeldBy, FramesOf, Reached;
    var p := s.procs[i];
    assert SlotOk(s.mem, ctx, p) && SlotOk(t.mem, ctx, p);
    WalkOf(s.mem, ctx, p.space, p.flags, p.count, va);
    WalkOf(t.mem, ctx, p.space, p.flags, p.count, va);
  }

  // ----- selection

  /** A kernel process with a body, or a user process with an entry, waiting to run. */
  predicate Waiting(p: Process, user: bool) {
    p.life == Ready && (if user then p.mode == UserMode && p.userEntry > 0 else p.mode == Kernel && p.entry > 0)
  }

  /** Selection picks the first waiting process at or after the cursor, cyclically; it picks
      none exactly when none waits. */
  lemma SelectsWaiting(procs: seq<Process>, cursor: nat, user: bool)
    requires |procs| == MAX_PROCESSES && cursor < MAX_PROCESSES
    ensures var r := RR.Select(EligibleBits(procs, user), cursor);
      && (r.None? <==> forall i :: 0 <= i < |procs| ==> !Waiting(procs[i], user))
      && (r.Some? ==>
            && 0 <= r.value < |procs| && Waiting(procs[r.value], user)
            && forall i :: 0 <= i < |procs| && Waiting(procs[i], user) ==>
                 RR.Distance(cursor, r.value, MAX_PROCESSES) <= RR.Distance(cursor, i, MAX_PROCESSES))
  {
    var bits := EligibleBits(procs, user);
    forall i | 0 <= i < |procs| ensures bits[i] <==> Waiting(procs[i], user) {
    }
    hide Waiting, Eligible, EligibleBits;
    RR.SelectsReady(bits, cursor, 0);
    forall i | 0 <= i < |procs| && Waiting(procs[i], user)
      ensures var r := RR.Select(bits, cursor);
        r.Some? && RR.Distance(cursor, r.value, MAX_PROCESSES) <= RR.Distance(cursor, i, MAX_PROCESSES)
    {
      RR.SelectsNearest(bits, cursor, 0, i);
    }
  }

  /** A user process just created waits to be selected, and so does a kernel process. */
  lemma CreatedWaits(s: System, ctx: Context, pool: set<nat>, m: Image, entry: nat)
    requires Inv(s, ctx, pool) && |m.staged| == IMAGE_MAX && AcceptableImage(m) && entry != 0
    requires FindUnused(s.procs).Some? && |s.pmm.stack| >= FRAMES_PER_PROCESS && !Strays(s.pmm)
    ensures Shaped(s)
    ensures var i := FindUnused(s.procs).value;
      && i < |CreateUser(s, m).0.procs| && Waiting(CreateUser(s, m).0.procs[i], true)
      && i < |CreateKernel(s, entry).0.procs| && Waiting(CreateKernel(s, entry).0.procs[i], false)
  {
    hide Inv, CreateUser, CreateKernel, Shaped, WritesFreeOnly, Strays, Loaded, FindUnused;
    CreateUserExact(s, ctx, pool, m);
    CreateKernelExact(s, ctx, pool, entry);
    var t, i := CreateUser(s, m).0, FindUnused(s.procs).value;
    LoadedMode(t.mem, t.procs[i], m);
  }
}
