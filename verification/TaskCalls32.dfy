/** When the i386 scheduler enters task bodies: recurring tasks keep their interval in
    unbounded time although the kernel compares 32-bit ticks, one-shot bodies run once per id. */
module TaskCalls32 {
  import opened MachineWords
  import opened Tasks32
  import opened TaskStacks32

  // ----- wrapping ticks against the unbounded clock

  lemma ElapsedIs(a: nat, b: nat)
    requires b <= a
    ensures Elapsed(a, b) == (a - b) % U32 <= a - b
  {
  }

  /** A wake tick in the future, at most half the range away, is not due. */
  lemma NotYetDue(clock: nat, wakeAt: nat)
    requires clock < wakeAt
    ensures wakeAt - clock <= HALF ==> !Due(clock, wakeAt)
    ensures HALF < wakeAt - clock < U32 ==> Due(clock, wakeAt)
  {
  }

  lemma DueOnceReached(clock: nat, wakeAt: nat)
    requires wakeAt <= clock
    ensures clock < wakeAt + HALF ==> Due(clock, wakeAt)
  {
    ElapsedIs(clock, wakeAt);
  }

  /** A sleep from `start` until `wakeAt` is never ended early by a wake scan, exactly when it
      lasts at most half the counter's range. */
  lemma SleepNotEarlyExactly(start: nat, wakeAt: nat)
    requires start < wakeAt < start + U32
    ensures (forall t :: start <= t < wakeAt ==> !Due(t, wakeAt)) <==> wakeAt - start <= HALF
  {
    forall t | start <= t < wakeAt ensures wakeAt - start <= HALF ==> !Due(t, wakeAt) {
      NotYetDue(t, wakeAt);
    }
    NotYetDue(start, wakeAt);
  }

  // ----- the invariant

  /** What a call on record says about its kernel task. */
  predicate Matches(c: Call, t: Task) {
    c.at <= t.lastAt && c.oneshot == t.oneshot && c.interval == t.interval && !(t.oneshot && Alive(t))
  }

  ghost predicate SlotCalls(t: Task, calls: seq<Call>, clock: nat, nextId: nat) {
    t.used ==>
      && 0 < t.id < nextId && t.lastAt <= clock
      && (forall k :: 0 <= k < |calls| && calls[k].id == t.id ==> Matches(calls[k], t))
  }

  ghost predicate IdsDiffer(tasks: seq<Task>) {
    forall i, j :: 0 <= i < j < |tasks| && tasks[i].used && tasks[j].used ==> tasks[i].id != tasks[j].id
  }

  /** Between any entry of a recurring task and a later entry by `run_pending` lie at least
      its interval ticks. */
  ghost predicate Spaced(calls: seq<Call>) {
    forall a, b :: 0 <= a < b < |calls| && calls[a].id == calls[b].id && calls[b].pending && !calls[b].oneshot ==>
      calls[a].at + calls[b].interval <= calls[b].at
  }

  /** A one-shot body is entered at most once per id. */
  ghost predicate EnteredOnce(calls: seq<Call>) {
    forall a, b :: 0 <= a < b < |calls| && calls[a].id == calls[b].id ==> !calls[b].oneshot
  }

  ghost predicate Recorded(calls: seq<Call>, clock: nat, nextId: nat) {
    forall k :: 0 <= k < |calls| ==> calls[k].id < nextId && calls[k].at <= clock
  }

  ghost predicate CallInv(s: State) {
    && s.nextId > 0 && IdsDiffer(s.tasks) && Recorded(s.calls, s.clock, s.nextId)
    && (forall i :: 0 <= i < |s.tasks| ==> SlotCalls(s.tasks[i], s.calls, s.clock, s.nextId))
    && Spaced(s.calls) && EnteredOnce(s.calls)
  }

  // ----- changing one slot

  /** The same task, run no earlier than before; a one-shot that was finished stays finished. */
  predicate Successor(t: Task, n: Task, clock: nat) {
    && n.used == t.used && n.id == t.id && n.oneshot == t.oneshot && n.interval == t.interval
    && t.lastAt <= n.lastAt && (n.lastAt == t.lastAt || n.lastAt <= clock)
    && (n.oneshot && Alive(n) ==> Alive(t))
  }

  lemma SlotCallsKept(t: Task, n: Task, calls: seq<Call>, clock: nat, later: nat, nextId: nat)
    requires SlotCalls(t, calls, clock, nextId) && Successor(t, n, later) && clock <= later
    ensures SlotCalls(n, calls, later, nextId)
  {
  }

  /** Every slot may move on to a successor while the clock advances. */
  lemma SlotsMoveOn(s: State, u: State)
    requires CallInv(s) && |u.tasks| == |s.tasks| && u.calls == s.calls && u.nextId == s.nextId && s.clock <= u.clock
    requires forall i :: 0 <= i < |s.tasks| ==> u.tasks[i] == BLANK || Successor(s.tasks[i], u.tasks[i], u.clock)
    ensures CallInv(u)
  {
    hide SlotCalls, Spaced, EnteredOnce, Successor;
    forall i | 0 <= i < |u.tasks| ensures SlotCalls(u.tasks[i], u.calls, u.clock, u.nextId) {
      if u.tasks[i] == BLANK {
        BlankCalls(u.calls, u.clock, u.nextId);
      } else {
        SlotCallsKept(s.tasks[i], u.tasks[i], s.calls, s.clock, u.clock, s.nextId);
      }
    }
    forall i, j | 0 <= i < j < |u.tasks| && u.tasks[i].used && u.tasks[j].used ensures u.tasks[i].id != u.tasks[j].id {
      SuccessorId(s.tasks[i], u.tasks[i], u.clock);
      SuccessorId(s.tasks[j], u.tasks[j], u.clock);
    }
  }

  lemma BlankCalls(calls: seq<Call>, clock: nat, nextId: nat)
    ensures SlotCalls(BLANK, calls, clock, nextId)
  {
  }

  lemma SuccessorId(t: Task, n: Task, clock: nat)
    ensures Successor(t, n, clock) ==> n.id == t.id && n.used == t.used
  {
  }

  lemma SuccessorSelf(t: Task, clock: nat)
    ensures Successor(t, t, clock)
  {
  }

  lemma OneMovesOn(s: State, i: nat, n: Task)
    requires CallInv(s) && i < |s.tasks| && (n == BLANK || Successor(s.tasks[i], n, s.clock))
    ensures CallInv(s.(tasks := s.tasks[i := n]))
  {
    hide CallInv, Successor;
    forall j | 0 <= j < |s.tasks|
      ensures s.tasks[i := n][j] == BLANK || Successor(s.tasks[j], s.tasks[i := n][j], s.clock)
    {
      SuccessorSelf(s.tasks[j], s.clock);
    }
    SlotsMoveOn(s, s.(tasks := s.tasks[i := n]));
  }

  /** A new task under a new id. */
  lemma NewTask(s: State, i: nat, n: Task)
    requires CallInv(s) && i < |s.tasks| && n.used && n.id == s.nextId && n.lastAt <= s.clock
    ensures CallInv(s.(tasks := s.tasks[i := n], nextId := s.nextId + 1))
  {
    var u := s.(tasks := s.tasks[i := n], nextId := s.nextId + 1);
    hide Spaced, EnteredOnce, Matches;
    forall j | 0 <= j < |u.tasks| ensures SlotCalls(u.tasks[j], u.calls, u.clock, u.nextId) {
      assert SlotCalls(s.tasks[j], s.calls, s.clock, s.nextId);
    }
    forall j, k | 0 <= j < k < |u.tasks| && u.tasks[j].used && u.tasks[k].used ensures u.tasks[j].id != u.tasks[k].id {
      assert SlotCalls(s.tasks[j], s.calls, s.clock, s.nextId) && SlotCalls(s.tasks[k], s.calls, s.clock, s.nextId);
    }
  }

  // ----- entering a body

  /** Entering slot `i`, whose last run was just set to now: earlier entries of the same task
      are at least an interval back when `run_pending` found it ready. */
  lemma Entered(s: State, i: nat, t: Task, pending: bool, n: Task)
    requires CallInv(s) && i < |s.tasks| && s.tasks[i].used && Alive(s.tasks[i])
    requires pending ==> IsReady(s.tasks[i], s.clock)
    requires t == s.tasks[i].(lastAt := s.clock) && Successor(t, n, s.clock) && n.lastAt == s.clock
      && (n.oneshot ==> !Alive(n))
    ensures CallInv(s.(tasks := s.tasks[i := n],
      calls := s.calls + [Call(t.id, s.clock, pending, t.oneshot, t.interval)]))
  {
    hide IdsDiffer;
    var was := s.tasks[i];
    var c := Call(t.id, s.clock, pending, t.oneshot, t.interval);
    var u := s.(tasks := s.tasks[i := n], calls := s.calls + [c]);
    assert SlotCalls(was, s.calls, s.clock, s.nextId);
    assert Spaced(u.calls) by { NewCallSpaced(s, was, c); }
    assert EnteredOnce(u.calls) by { NewCallOnce(s, was, c); }
    assert IdsDiffer(u.tasks) by { IdsKept(s.tasks, i, n); }
    forall j | 0 <= j < |u.tasks| ensures SlotCalls(u.tasks[j], u.calls, u.clock, u.nextId) {
      assert SlotCalls(s.tasks[j], s.calls, s.clock, s.nextId);
      if j != i && s.tasks[j].used {
        OtherId(s.tasks, i, j);
      }
    }
  }

  lemma IdsKept(tasks: seq<Task>, i: nat, n: Task)
    requires IdsDiffer(tasks) && i < |tasks| && n.used == tasks[i].used && n.id == tasks[i].id
    ensures IdsDiffer(tasks[i := n])
  {
  }

  lemma OtherId(tasks: seq<Task>, i: nat, j: nat)
    requires IdsDiffer(tasks) && i < |tasks| && j < |tasks| && i != j && tasks[i].used && tasks[j].used
    ensures tasks[i].id != tasks[j].id
  {
  }

  lemma NewCallSpaced(s: State, t: Task, c: Call)
    requires Spaced(s.calls) && t.used && SlotCalls(t, s.calls, s.clock, s.nextId)
    requires c.id == t.id && c.at == s.clock && c.oneshot == t.oneshot && c.interval == t.interval
    requires c.pending ==> IsReady(t, s.clock)
    ensures Spaced(s.calls + [c])
  {
    var all := s.calls + [c];
    forall a, b | 0 <= a < b < |all| && all[a].id == all[b].id && all[b].pending && !all[b].oneshot
      ensures all[a].at + all[b].interval <= all[b].at
    {
      if b == |s.calls| {
        assert Matches(s.calls[a], t);
        ElapsedIs(s.clock, t.lastAt);
      }
    }
  }

  lemma NewCallOnce(s: State, t: Task, c: Call)
    requires EnteredOnce(s.calls) && t.used && Alive(t) && SlotCalls(t, s.calls, s.clock, s.nextId)
    requires c.id == t.id && c.oneshot == t.oneshot
    ensures EnteredOnce(s.calls + [c])
  {
    var all := s.calls + [c];
    forall a, b | 0 <= a < b < |all| && all[a].id == all[b].id ensures !all[b].oneshot {
      if b == |s.calls| {
        assert Matches(s.calls[a], t);
      }
    }
  }
}
