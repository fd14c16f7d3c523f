/** Kernel-stack ownership in the i386 scheduler: every stack is a live heap block of its own,
    the counters account for them, and audit and repair of the table. */
module TaskStacks32 {
  import opened MachineWords
  import H = HeapMachine
  import B = HeapBlocks
  import opened Tasks32

  // ----- what the heap promises

  lemma ValidatesIsFreeable(h: H.State, p: nat)
    requires H.Valid(h)
    ensures Validates(h, p) <==> H.Freeable(h, p)
  {
    hide H.G.Ready, H.G.ViewOf, H.Backed, B.Canonical;
    B.TilesOrdered(h.blocks, H.START, h.next);
    if H.Freeable(h, p) {
      var i :| 0 <= i < |h.blocks| && i < B.LIMIT && h.blocks[i].used && h.blocks[i].Payload() == p;
      assert H.Find(h, p).Some?;
      B.PayloadUnique(h.blocks, H.START, h.next, i, H.Find(h, p).value);
    }
  }

  /** Some live block of at least a stack's size has its payload at `p`. */
  ghost predicate Backs(h: H.State, p: nat) {
    h.initialized && exists b :: b in B.Live(h.blocks) && b.Payload() == p && b.size >= STACK_BYTES
  }

  lemma FreedOthers(h: H.State, p: nat, q: nat)
    requires H.Valid(h) && H.Freeable(h, p) && Backs(h, q) && q != p
    ensures Backs(H.Kfree(h, p), q)
  {
    hide H.Valid, H.Kfree, B.Live, H.Freeable;
    H.KfreeExact(h, p);
    assert H.Kfree(h, p).initialized == h.initialized by { KfreeReady(h, p); }
    var b :| b in B.Live(h.blocks) && b.Payload() == q && b.size >= STACK_BYTES;
  }

  lemma KfreeReady(h: H.State, p: nat)
    ensures H.Kfree(h, p).initialized == h.initialized
  {
  }

  lemma KmallocReady(h: H.State)
    requires H.Valid(h) && !h.initialized
    ensures H.Kmalloc(h, STACK_BYTES).pointer == 0
  {
    hide H.Valid;
  }

  lemma StackSizeAligned()
    ensures 0 < STACK_BYTES < U32 && !H.Wraps(STACK_BYTES)
  {
  }

  /** A stack taken from the heap is new, and every other one stays. */
  lemma TakenStack(h: H.State, q: nat)
    requires H.Valid(h)
    ensures var k := H.Kmalloc(h, STACK_BYTES);
      && H.Valid(k.state)
      && (k.pointer != 0 ==> Backs(k.state, k.pointer))
      && (Backs(h, q) ==> Backs(k.state, q) && q != k.pointer)
  {
    hide H.Valid, H.Kmalloc, B.Live, H.Wraps;
    StackSizeAligned();
    H.KmallocCorrect(h, STACK_BYTES);
    var k := H.Kmalloc(h, STACK_BYTES);
    if !h.initialized {
      KmallocReady(h);
    }
    if k.pointer != 0 {
      var n :| && n !in B.Live(h.blocks) && B.Live(k.state.blocks) == B.Live(h.blocks) + {n}
                && n.Payload() == k.pointer && k.pointer % 8 == 0 && n.size >= STACK_BYTES
                && forall c :: c in B.Live(h.blocks) ==> n.End() <= c.addr || c.End() <= n.addr;
      assert n in B.Live(k.state.blocks);
    }
    if Backs(h, q) {
      var b :| b in B.Live(h.blocks) && b.Payload() == q && b.size >= STACK_BYTES;
      assert b in B.Live(k.state.blocks);
      assert b.Payload() != 0;
    }
  }

  /** The kernel's check of a new stack's pointer never fails. */
  lemma TakenValidates(h: H.State)
    requires H.Valid(h) && H.Kmalloc(h, STACK_BYTES).pointer != 0
    ensures Validates(H.Kmalloc(h, STACK_BYTES).state, H.Kmalloc(h, STACK_BYTES).pointer)
  {
    hide H.Valid, H.Kmalloc, H.Wraps, Validates, H.Freeable;
    StackSizeAligned();
    H.KmallocCorrect(h, STACK_BYTES);
    H.KmallocFreeable(h, STACK_BYTES);
    ValidatesIsFreeable(H.Kmalloc(h, STACK_BYTES).state, H.Kmalloc(h, STACK_BYTES).pointer);
  }

  lemma BackedInRange(h: H.State, p: nat)
    requires H.Valid(h) && Backs(h, p)
    ensures H.START <= p && p + STACK_BYTES <= H.TOP
  {
    hide H.G.Ready, H.G.ViewOf, H.Backed, B.Canonical;
    B.TilesOrdered(h.blocks, H.START, h.next);
    var b :| b in B.Live(h.blocks) && b.Payload() == p && b.size >= STACK_BYTES;
    var i :| 0 <= i < |h.blocks| && h.blocks[i] == b;
    if i < |h.blocks| - 1 {
      assert h.blocks[i].End() <= h.blocks[|h.blocks| - 1].addr;
    }
  }

  /** Two stacks backed by the heap do not overlap. */
  lemma BackedApart(h: H.State, p: nat, q: nat)
    requires H.Valid(h) && Backs(h, p) && Backs(h, q) && p != q
    ensures p + STACK_BYTES <= q || q + STACK_BYTES <= p
  {
    hide H.G.Ready, H.G.ViewOf, H.Backed, B.Canonical, B.Tiles, B.Live;
    var b :| b in B.Live(h.blocks) && b.Payload() == p && b.size >= STACK_BYTES;
    var c :| c in B.Live(h.blocks) && c.Payload() == q && c.size >= STACK_BYTES;
    B.LiveDisjoint(h.blocks, H.START, h.next, b, c);
  }

  // ----- the invariant

  ghost predicate StackFields(t: Task) {
    if t.base == 0 then t.size == 0 && t.top == 0 else t.size == STACK_BYTES && t.top == t.base + STACK_BYTES
  }

  predicate Alive(t: Task) { t.life == Active || t.life == Sleeping }

  ghost predicate TaskOk(t: Task) {
    if !t.used then t == BLANK
    else
      && (Alive(t) || t.life == Disabled || t.life == Completed)
      && t.entry != 0 && (t.oneshot || t.interval > 0) && StackFields(t) && (t.base != 0 <==> Alive(t))
  }

  ghost predicate TableOk(tasks: seq<Task>) {
    |tasks| == MAX_TASKS && forall i :: 0 <= i < |tasks| ==> TaskOk(tasks[i])
  }

  ghost predicate StacksOk(h: H.State, tasks: seq<Task>) {
    && (forall i :: 0 <= i < |tasks| && tasks[i].base != 0 ==> Backs(h, tasks[i].base))
    && (forall i, j :: 0 <= i < j < |tasks| && tasks[i].base != 0 ==> tasks[i].base != tasks[j].base)
  }

  /** The slots that hold a kernel stack. */
  ghost function Holders(tasks: seq<Task>): set<nat> {
    set i | 0 <= i < |tasks| && tasks[i].base != 0
  }

  ghost predicate Inv(s: State) {
    H.Valid(s.heap) && TableOk(s.tasks) && StacksOk(s.heap, s.tasks) && s.taken == s.given + |Holders(s.tasks)|
  }

  // ----- changing one slot

  lemma HoldersUpdate(tasks: seq<Task>, i: nat, t: Task)
    requires i < |tasks|
    ensures Holders(tasks[i := t]) == Holders(tasks) - {i} + (if t.base != 0 then {i} else {})
    ensures i in Holders(tasks) <==> tasks[i].base != 0
    ensures |Holders(tasks[i := t])| ==
      |Holders(tasks)| - (if tasks[i].base != 0 then 1 else 0) + (if t.base != 0 then 1 else 0)
  {
    assert Holders(tasks[i := t]) == Holders(tasks) - {i} + (if t.base != 0 then {i} else {});
  }

  /** The stack stays with its slot. */
  lemma KeptStack(s: State, i: nat, t: Task)
    requires Inv(s) && i < |s.tasks| && t.base == s.tasks[i].base && TaskOk(t)
    ensures Inv(s.(tasks := s.tasks[i := t]))
  {
    hide H.Valid, Backs, TaskOk, Holders;
    HoldersUpdate(s.tasks, i, t);
  }

  /** A held stack always passes the check before it is freed. */
  lemma FreeSucceeds(s: State, i: nat)
    requires Inv(s) && i < |s.tasks| && |s.heap.blocks| <= B.LIMIT
    ensures FreeStack(s, i).Some?
  {
    hide TaskOk, Holders, H.G.Ready, H.G.ViewOf, H.Backed, B.Tiles, B.Canonical;
    if s.tasks[i].base != 0 {
      ValidatesIsFreeable(s.heap, s.tasks[i].base);
      var p := s.tasks[i].base;
      assert Backs(s.heap, p);
      var b :| b in B.Live(s.heap.blocks) && b.Payload() == p && b.size >= STACK_BYTES;
      var k :| 0 <= k < |s.heap.blocks| && s.heap.blocks[k] == b;
      assert H.Freeable(s.heap, p);
    }
  }

  /** A slot without a stack of its own, whatever else it says. */
  function Bare(t: Task): Task { if t.base == 0 then t else t.(base := 0, size := 0, top := 0) }

  /** Freeing slot `i`'s stack while the slot becomes `t`. */
  lemma FreedSlot(s: State, i: nat, t: Task)
    requires Inv(s) && i < |s.tasks| && t.base == s.tasks[i].base
    requires FreeStack(s.(tasks := s.tasks[i := t]), i).Some?
    ensures var u := FreeStack(s.(tasks := s.tasks[i := t]), i).value;
      && u == s.(heap := u.heap, tasks := s.tasks[i := Bare(t)], given := u.given)
      && H.Valid(u.heap) && StacksOk(u.heap, u.tasks) && u.taken == u.given + |Holders(u.tasks)|
      && (TaskOk(Bare(t)) ==> Inv(u))
  {
    hide H.Valid, H.Kfree, Backs, TaskOk, Holders, Validates, H.Freeable;
    var u := FreeStack(s.(tasks := s.tasks[i := t]), i).value;
    HoldersUpdate(s.tasks, i, Bare(t));
    assert s.tasks[i := t][i := Bare(t)] == s.tasks[i := Bare(t)];
    if t.base != 0 {
      ValidatesIsFreeable(s.heap, t.base);
      H.KfreeExact(s.heap, t.base);
      forall j | 0 <= j < |u.tasks| && u.tasks[j].base != 0 ensures Backs(u.heap, u.tasks[j].base) {
        assert s.tasks[j].base != t.base;
        FreedOthers(s.heap, t.base, s.tasks[j].base);
      }
    }
  }

  /** Taking a stack for a slot that has none. */
  lemma TookStack(s: State, i: nat, t: Task)
    requires Inv(s) && i < |s.tasks| && s.tasks[i].base == 0 && t.base == 0
    ensures var k := TakeStack(s.(tasks := s.tasks[i := t]), i);
      if k.1 then
        var n := k.0.tasks[i];
        && n.base != 0 && n == t.(base := n.base, size := STACK_BYTES, top := n.base + STACK_BYTES)
        && k.0 == s.(heap := k.0.heap, taken := s.taken + 1, tasks := s.tasks[i := n])
        && (TaskOk(n) ==> Inv(k.0))
      else
        && k.0 == s.(heap := k.0.heap, tasks := s.tasks[i := t])
        && Inv(s.(heap := k.0.heap))
  {
    hide H.Valid, H.Kmalloc, Backs, TaskOk, Holders;
    var k := TakeStack(s.(tasks := s.tasks[i := t]), i);
    var p := H.Kmalloc(s.heap, STACK_BYTES).pointer;
    TakenStack(s.heap, 0);
    forall j | 0 <= j < |s.tasks| && s.tasks[j].base != 0
      ensures Backs(k.0.heap, s.tasks[j].base) && s.tasks[j].base != p
    {
      TakenStack(s.heap, s.tasks[j].base);
    }
    if k.1 {
      BackedInRange(k.0.heap, p);
      HoldersUpdate(s.tasks, i, k.0.tasks[i]);
      assert s.tasks[i := t][i := k.0.tasks[i]] == s.tasks[i := k.0.tasks[i]];
    }
  }
}
