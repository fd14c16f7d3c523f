/** The i386 scheduler's audit and repair: what repair makes of any table, when the audit after
    it is clean, and that repairing again changes nothing. */
module TaskRepair32 {
  import opened MachineWords
  import opened Wrappers
  import H = HeapMachine
  import B = HeapBlocks
  import opened Tasks32
  import opened TaskStacks32

  // ----- audit

  predicate Going(t: Task) { t.life == Active || t.life == Running || t.life == Sleeping }

  predicate Ended(t: Task) { t.life == Disabled || t.life == Completed }

  predicate Overslept(t: Task) { t.life == Sleeping && t.wakeAt % U32 == 0 }

  /** The issues `scheduler_audit_unlocked` records for one slot. */
  function SlotIssues(t: Task): nat {
    if !t.used then (if t.base != 0 || t.top != 0 then 1 else 0)
    else if t.life == Bad then 1
    else
      (if Going(t) && (t.base == 0 || t.top == 0) then 1 else 0)
      + (if Going(t) && t.entry == 0 then 1 else 0)
      + (if Overslept(t) then 1 else 0)
      + (if Ended(t) && (t.base != 0 || t.top != 0) then 1 else 0)
  }

  function TableIssues(tasks: seq<Task>, i: nat): nat
    requires i <= |tasks|
    decreases |tasks| - i
  {
    if i == |tasks| then 0 else SlotIssues(tasks[i]) + TableIssues(tasks, i + 1)
  }

  predicate Stale(tasks: seq<Task>, q: Queued) { q.slot >= |tasks| || !tasks[q.slot].used || tasks[q.slot].id != q.id }

  /** `scheduler_audit_ready_queue`. */
  function QueueIssues(tasks: seq<Task>, queue: seq<Queued>, i: nat): nat
    requires i <= |queue|
    decreases |queue| - i
  {
    if i == |queue| then 0 else (if Stale(tasks, queue[i]) then 1 else 0) + QueueIssues(tasks, queue, i + 1)
  }

  predicate InTable(p: Option<nat>, tasks: seq<Task>) { p.None? || p.value < |tasks| }

  /** `scheduler_audit_unlocked`. */
  function Audit(s: State): nat {
    TableIssues(s.tasks, 0) + QueueIssues(s.tasks, s.queue, 0)
    + (if InTable(s.current, s.tasks) then 0 else 1) + (if InTable(s.switched, s.tasks) then 0 else 1)
  }

  // ----- repair

  /** Whether repair has to act on a slot, as it counts its repairs. */
  predicate NeedsRepair(t: Task) {
    if !t.used then t.base != 0
    else
      || t.life == Bad || (Going(t) && (t.entry == 0 || t.base == 0 || t.top == 0))
      || Overslept(t) || (Ended(t) && t.base != 0)
  }

  /** One slot of `scheduler_repair_unlocked`; `None` is the failed kernel assertion. */
  function RepairSlot(s: State, i: nat): (r: Option<State>)
    requires i < |s.tasks|
    ensures r.Some? ==> |r.value.tasks| == |s.tasks|
  {
    var t := s.tasks[i];
    if !t.used then
      match FreeStack(s, i)
      case None => None
      case Some(f) => Some(f.(tasks := f.tasks[i := f.tasks[i].(top := 0, size := 0)]))
    else if t.life == Bad || (Going(t) && (t.entry == 0 || t.base == 0 || t.top == 0)) then
      FreeStack(s.(tasks := s.tasks[i := t.(life := Disabled)]), i)
    else if Overslept(t) then Some(s.(tasks := s.tasks[i := t.(life := Active)]))
    else if Ended(t) then FreeStack(s, i)
    else Some(s)
  }

  function RepairFrom(s: State, i: nat): (r: Option<(State, nat)>)
    requires i <= |s.tasks|
    ensures r.Some? ==> |r.value.0.tasks| == |s.tasks|
    decreases |s.tasks| - i
  {
    if i == |s.tasks| then Some((s, 0))
    else
      match RepairSlot(s, i)
      case None => None
      case Some(f) =>
        match RepairFrom(f, i + 1)
        case None => None
        case Some(r) => Some((r.0, r.1 + (if NeedsRepair(s.tasks[i]) then 1 else 0)))
  }

  /** `scheduler_repair_unlocked`: the state and the number of repairs. */
  function Repair(s: State): (r: Option<(State, nat)>) {
    match RepairFrom(s, 0)
    case None => None
    case Some(r) =>
      var lost := (if InTable(r.0.current, r.0.tasks) then 0 else 1)
        + (if InTable(r.0.switched, r.0.tasks) then 0 else 1);
      Some((r.0.(queue := [], current := if InTable(r.0.current, r.0.tasks) then r.0.current else None,
                    switched := if InTable(r.0.switched, r.0.tasks) then r.0.switched else None), r.1 + lost))
  }

  // ----- what repair makes of a slot

  function Repaired(t: Task): Task {
    if !t.used then t.(base := 0, size := 0, top := 0)
    else if t.life == Bad || (Going(t) && (t.entry == 0 || t.base == 0 || t.top == 0)) then Bare(t.(life := Disabled))
    else if Overslept(t) then t.(life := Active)
    else if Ended(t) then Bare(t)
    else t
  }

  /** A used slot with a stack top and no base: freeing skips it, so the top stays. */
  predicate Stuck(t: Task) { t.used && t.life != Unused && t.base == 0 && t.top != 0 }

  lemma RepairedClean(t: Task)
    ensures SlotIssues(Repaired(t)) == 0 <==> !Stuck(t)
    ensures Repaired(Repaired(t)) == Repaired(t) && !NeedsRepair(Repaired(t))
  {
  }

  // ----- what the audit and the repair count mean

  /** A slot in order: an unused one keeps no stack; a used one has a known state, a stack and a
      body while it goes, no stack once it ended, and a wake tick while it sleeps. */
  predicate InOrder(t: Task) {
    if !t.used then t.base == 0 && t.top == 0
    else match t.life
      case Bad => false
      case Unused => true
      case Active => t.base != 0 && t.top != 0 && t.entry != 0
      case Running => t.base != 0 && t.top != 0 && t.entry != 0
      case Sleeping => t.base != 0 && t.top != 0 && t.entry != 0 && t.wakeAt % U32 != 0
      case Disabled => t.base == 0 && t.top == 0
      case Completed => t.base == 0 && t.top == 0
  }

  /** On any table at all, the audit finds nothing exactly when every slot is in order, every
      queue entry names its slot's task, and the two task pointers are in the table. */
  lemma AuditCleanExactly(s: State)
    ensures Audit(s) == 0 <==>
      && (forall i :: 0 <= i < |s.tasks| ==> InOrder(s.tasks[i]))
      && (forall k :: 0 <= k < |s.queue| ==>
            s.queue[k].slot < |s.tasks| && s.tasks[s.queue[k].slot].used
            && s.tasks[s.queue[k].slot].id == s.queue[k].id)
      && (s.current.Some? ==> s.current.value < |s.tasks|) && (s.switched.Some? ==> s.switched.value < |s.tasks|)
  {
    hide SlotIssues, InOrder;
    forall i | 0 <= i < |s.tasks| ensures SlotIssues(s.tasks[i]) == 0 <==> InOrder(s.tasks[i]) {
      InOrderExactly(s.tasks[i]);
    }
    CleanTable(s.tasks, 0);
    CleanQueue(s.tasks, s.queue, 0);
  }

  lemma InOrderExactly(t: Task)
    ensures SlotIssues(t) == 0 <==> InOrder(t)
  {
  }

  lemma {:induction false} CleanQueue(tasks: seq<Task>, queue: seq<Queued>, i: nat)
    requires i <= |queue|
    ensures QueueIssues(tasks, queue, i) == 0 <==> forall k :: i <= k < |queue| ==> !Stale(tasks, queue[k])
    decreases |queue| - i
  {
    if i < |queue| {
      CleanQueue(tasks, queue, i + 1);
    }
  }

  lemma RepairedExactly(t: Task)
    ensures InOrder(t) ==> Repaired(t) == if t.used then t else t.(size := 0)
    ensures Broken(t) ==> Repaired(t).life == Disabled && Repaired(t).base == 0
    ensures NeedsRepair(t) <==> Repaired(t) != t && (t.used || t.base != 0)
  {
  }

  /** A task that should go but lacks its stack or its body. */
  predicate Broken(t: Task) {
    && t.used && (t.life == Active || t.life == Running || t.life == Sleeping)
    && (t.base == 0 || t.top == 0 || t.entry == 0)
  }

  // ----- the heap while stacks are freed

  /** Some live block has its payload at `p`. */
  ghost predicate LivePointer(h: H.State, p: nat) {
    h.initialized && exists b :: b in B.Live(h.blocks) && b.Payload() == p
  }

  /** Non-zero bases are distinct live heap pointers, within the blocks the heap walks. */
  ghost predicate Pointers(h: H.State, tasks: seq<Task>) {
    && H.Valid(h) && |h.blocks| <= B.LIMIT
    && (forall i :: 0 <= i < |tasks| && tasks[i].base != 0 ==> LivePointer(h, tasks[i].base))
    && (forall i, j :: 0 <= i < j < |tasks| && tasks[i].base != 0 ==> tasks[i].base != tasks[j].base)
  }

  lemma LiveIsFreeable(h: H.State, p: nat)
    requires H.Valid(h) && |h.blocks| <= B.LIMIT && LivePointer(h, p)
    ensures H.Freeable(h, p)
  {
    hide H.Valid;
    var b :| b in B.Live(h.blocks) && b.Payload() == p;
    var k :| 0 <= k < |h.blocks| && h.blocks[k] == b;
  }

  lemma KfreeShrinks(h: H.State, p: nat)
    ensures |H.Kfree(h, p).blocks| <= |h.blocks| && H.Kfree(h, p).initialized == h.initialized
  {
    match H.Find(h, p) {
      case None =>
      case Some(i) => B.MergeShrinks(h.blocks[i := h.blocks[i].(used := false)], 0);
    }
  }

  lemma FreedPointers(h: H.State, p: nat, q: nat)
    requires H.Valid(h) && H.Freeable(h, p) && LivePointer(h, q) && q != p
    ensures LivePointer(H.Kfree(h, p), q)
  {
    hide H.Valid, H.Kfree, B.Live, H.Freeable;
    H.KfreeExact(h, p);
    KfreeShrinks(h, p);
    var b :| b in B.Live(h.blocks) && b.Payload() == q;
  }

  /** Freeing the stack of a slot never fails the kernel's check, and the rest stays sound. */
  lemma FreedSound(s: State, i: nat, t: Task)
    requires Pointers(s.heap, s.tasks) && i < |s.tasks| && t.base == s.tasks[i].base
    ensures var r := FreeStack(s.(tasks := s.tasks[i := t]), i);
      && r.Some? && r.value == s.(heap := r.value.heap, tasks := s.tasks[i := Bare(t)], given := r.value.given)
      && Pointers(r.value.heap, r.value.tasks)
  {
    hide H.Valid, H.Kfree, Validates, H.Freeable, LivePointer;
    assert s.tasks[i := t][i := Bare(t)] == s.tasks[i := Bare(t)];
    if t.base != 0 {
      LiveIsFreeable(s.heap, t.base);
      ValidatesIsFreeable(s.heap, t.base);
      H.KfreeExact(s.heap, t.base);
      KfreeShrinks(s.heap, t.base);
      forall j | 0 <= j < |s.tasks| && j != i && s.tasks[j].base != 0
        ensures LivePointer(H.Kfree(s.heap, t.base), s.tasks[j].base)
      {
        FreedPointers(s.heap, t.base, s.tasks[j].base);
      }
    }
  }

  lemma PointersRelabelled(h: H.State, tasks: seq<Task>, i: nat, t: Task)
    requires Pointers(h, tasks) && i < |tasks| && (t.base == tasks[i].base || t.base == 0)
    ensures Pointers(h, tasks[i := t])
  {
    hide H.Valid, LivePointer;
  }

  /** One slot of the repair scan. */
  lemma RepairSlotSound(s: State, i: nat)
    requires Pointers(s.heap, s.tasks) && i < |s.tasks|
    ensures var r := RepairSlot(s, i);
      && r.Some? && r.value ==
        s.(heap := r.value.heap, tasks := s.tasks[i := Repaired(s.tasks[i])], given := r.value.given)
      && Pointers(r.value.heap, r.value.tasks)
  {
    hide Pointers, FreeStack;
    var t := s.tasks[i];
    assert s.tasks[i := t] == s.tasks;
    if !t.used {
      FreedSound(s, i, t);
      var f := FreeStack(s, i).value;
      PointersRelabelled(f.heap, f.tasks, i, Repaired(t));
      assert f.tasks[i := Repaired(t)] == s.tasks[i := Repaired(t)];
    } else if t.life == Bad || (Going(t) && (t.entry == 0 || t.base == 0 || t.top == 0)) {
      FreedSound(s, i, t.(life := Disabled));
    } else if Overslept(t) {
      PointersRelabelled(s.heap, s.tasks, i, t.(life := Active));
    } else if Ended(t) {
      FreedSound(s, i, t);
    }
  }

  function RepairedFrom(tasks: seq<Task>, i: nat): (r: seq<Task>)
    ensures |r| == |tasks|
  {
    seq(|tasks|, j requires 0 <= j < |tasks| => if j < i then tasks[j] else Repaired(tasks[j]))
  }

  function NeededFrom(tasks: seq<Task>, i: nat): nat
    requires i <= |tasks|
    decreases |tasks| - i
  {
    if i == |tasks| then 0 else NeededFrom(tasks, i + 1) + (if NeedsRepair(tasks[i]) then 1 else 0)
  }

  lemma {:induction false} NeededIgnoresPrefix(a: seq<Task>, b: seq<Task>, i: nat)
    requires i <= |a| == |b| && forall j :: i <= j < |a| ==> a[j] == b[j]
    ensures NeededFrom(a, i) == NeededFrom(b, i)
    decreases |a| - i
  {
    if i < |a| {
      NeededIgnoresPrefix(a, b, i + 1);
    }
  }

  /** The whole scan repairs every slot and counts the slots it acted on. */
  lemma {:induction false} RepairFromSound(s: State, i: nat)
    requires Pointers(s.heap, s.tasks) && i <= |s.tasks|
    ensures var r := RepairFrom(s, i);
      && r.Some? && r.value.1 == NeededFrom(s.tasks, i)
      && r.value.0 == s.(heap := r.value.0.heap, tasks := RepairedFrom(s.tasks, i), given := r.value.0.given)
      && Pointers(r.value.0.heap, r.value.0.tasks)
    decreases |s.tasks| - i
  {
    hide Pointers, Repaired, NeedsRepair, RepairSlot;
    if i == |s.tasks| {
      assert RepairedFrom(s.tasks, i) == s.tasks;
    } else {
      RepairSlotSound(s, i);
      var f := RepairSlot(s, i).value;
      RepairFromSound(f, i + 1);
      NeededIgnoresPrefix(s.tasks, f.tasks, i + 1);
      assert RepairedFrom(f.tasks, i + 1) == RepairedFrom(s.tasks, i);
    }
  }

  // ----- the theorem

  lemma {:induction false} CleanTable(tasks: seq<Task>, i: nat)
    requires i <= |tasks|
    ensures TableIssues(tasks, i) == 0 <==> forall j :: i <= j < |tasks| ==> SlotIssues(tasks[j]) == 0
    decreases |tasks| - i
  {
    if i < |tasks| {
      CleanTable(tasks, i + 1);
    }
  }

  lemma {:induction false} NothingNeeded(tasks: seq<Task>, i: nat)
    requires i <= |tasks|
    ensures NeededFrom(tasks, i) == 0 <==> forall j :: i <= j < |tasks| ==> !NeedsRepair(tasks[j])
    decreases |tasks| - i
  {
    if i < |tasks| {
      NothingNeeded(tasks, i + 1);
    }
  }

  /** From any table whose bases are distinct live heap pointers, repair completes; the audit
      after it is clean exactly when no used slot had a top without a base; and repairing again
      repairs nothing and changes nothing. */
  lemma RepairExact(s: State)
    requires Pointers(s.heap, s.tasks)
    ensures Repair(s).Some?
    ensures Audit(Repair(s).value.0) == 0 <==> forall i :: 0 <= i < |s.tasks| ==> !Stuck(s.tasks[i])
    ensures Repair(Repair(s).value.0) == Some((Repair(s).value.0, 0))
  {
    hide Pointers, RepairFrom, Stuck;
    RepairFromSound(s, 0);
    var u := Repair(s).value.0;
    assert u.tasks == RepairedFrom(s.tasks, 0);
    forall i | 0 <= i < |s.tasks|
      ensures u.tasks[i] == Repaired(s.tasks[i]) && Repaired(u.tasks[i]) == u.tasks[i] && !NeedsRepair(u.tasks[i])
      ensures SlotIssues(u.tasks[i]) == 0 <==> !Stuck(s.tasks[i])
    {
      RepairedClean(s.tasks[i]);
    }
    CleanTable(u.tasks, 0);
    RepairFromSound(u, 0);
    NothingNeeded(u.tasks, 0);
    assert RepairedFrom(u.tasks, 0) == u.tasks;
    AgainSame(u);
  }

  /** Repair keeps slots in order, except for a leftover size in an unused one; disables broken
      tasks; and reports no repairs exactly when it changed no slot but unused ones without a
      stack and both task pointers were in the table. */
  lemma RepairEffect(s: State)
    requires Pointers(s.heap, s.tasks)
    ensures Repair(s).Some? && |Repair(s).value.0.tasks| == |s.tasks|
    ensures forall i :: 0 <= i < |s.tasks| ==>
      var t, u := s.tasks[i], Repair(s).value.0.tasks[i];
      && (InOrder(t) ==> u == if t.used then t else t.(size := 0))
      && (Broken(t) ==> u.life == Disabled && u.base == 0)
    ensures Repair(s).value.1 == 0 <==>
      && (forall i :: 0 <= i < |s.tasks| && (s.tasks[i].used || s.tasks[i].base != 0) ==>
            Repair(s).value.0.tasks[i] == s.tasks[i])
      && InTable(s.current, s.tasks) && InTable(s.switched, s.tasks)
  {
    hide Pointers, RepairFrom, InOrder, Broken, Repaired, NeedsRepair;
    RepairFromSound(s, 0);
    var u := Repair(s).value.0;
    assert u.tasks == RepairedFrom(s.tasks, 0);
    forall i | 0 <= i < |s.tasks|
      ensures u.tasks[i] == Repaired(s.tasks[i])
      ensures InOrder(s.tasks[i]) ==> u.tasks[i] == if s.tasks[i].used then s.tasks[i] else s.tasks[i].(size := 0)
      ensures Broken(s.tasks[i]) ==> u.tasks[i].life == Disabled && u.tasks[i].base == 0
      ensures NeedsRepair(s.tasks[i]) <==> u.tasks[i] != s.tasks[i] && (s.tasks[i].used || s.tasks[i].base != 0)
    {
      RepairedExactly(s.tasks[i]);
    }
    NothingNeeded(s.tasks, 0);
  }

  /** Where every slot is as repair leaves it, the scan frees nothing. */
  lemma {:induction false} ScanIdle(s: State, i: nat)
    requires i <= |s.tasks| && forall j :: i <= j < |s.tasks| ==>
      Repaired(s.tasks[j]) == s.tasks[j] && !NeedsRepair(s.tasks[j])
    ensures RepairFrom(s, i).Some? && RepairFrom(s, i).value.0 == s
    decreases |s.tasks| - i
  {
    if i < |s.tasks| {
      var t := s.tasks[i];
      assert s.tasks[i := t] == s.tasks;
      assert RepairSlot(s, i) == Some(s);
      ScanIdle(s, i + 1);
    }
  }

  lemma AgainSame(s: State)
    requires forall j :: 0 <= j < |s.tasks| ==> Repaired(s.tasks[j]) == s.tasks[j] && !NeedsRepair(s.tasks[j])
    requires s.queue == [] && InTable(s.current, s.tasks) && InTable(s.switched, s.tasks)
    requires RepairFrom(s, 0).Some? && RepairFrom(s, 0).value.1 == 0
    ensures Repair(s) == Some((s, 0))
  {
    hide Repaired, NeedsRepair, RepairSlot;
    ScanIdle(s, 0);
  }
}
