/** The bounded queue of exited children that x86_64 `wait` reads. */
module ChildStatus64 {
  import opened Wrappers
  import Finite

  const CAPACITY: nat := 16

  datatype Status = Status(parent: nat, child: nat, code: nat)

  datatype Queue = Queue(entries: seq<Status>, records: nat, waits: nat, drops: nat)

  const EMPTY: Queue := Queue([], 0, 0, 0)

  predicate Recordable(s: Status) { s.parent != 0 && s.child != 0 && s.parent != s.child }

  function Without<T>(xs: seq<T>, i: nat): (r: seq<T>)
    requires i < |xs|
    ensures |r| == |xs| - 1
  {
    xs[..i] + xs[i + 1..]
  }

  /** `x86_64_process_record_child_exit`: when full, the oldest record is evicted. */
  function Record(q: Queue, s: Status): Queue {
    if !Recordable(s) then q
    else
      var full := |q.entries| >= CAPACITY;
      Queue((if full then Without(q.entries, 0) else q.entries) + [s], q.records + 1, q.waits,
        q.drops + (if full then 1 else 0))
  }

  function FirstOf(entries: seq<Status>, parent: nat, i: nat := 0): (r: Option<nat>)
    requires i <= |entries|
    ensures r.Some? ==> i <= r.value < |entries| && entries[r.value].parent == parent
    ensures r.Some? ==> forall j :: i <= j < r.value ==> entries[j].parent != parent
    ensures r.None? ==> forall j :: i <= j < |entries| ==> entries[j].parent != parent
    decreases |entries| - i
  {
    if i == |entries| then None else if entries[i].parent == parent then Some(i) else FirstOf(entries, parent, i + 1)
  }

  /** `x86_64_process_wait_child`: the oldest record of `parent`, removed. */
  function Wait(q: Queue, parent: nat): (Queue, Option<Status>) {
    if parent == 0 then (q, None)
    else match FirstOf(q.entries, parent)
      case None => (q, None)
      case Some(i) => (q.(entries := Without(q.entries, i), waits := q.waits + 1), Some(q.entries[i]))
  }

  // ----- runs, with every record numbered in recording order

  datatype Op = Exit(status: Status) | WaitFor(parent: nat)

  /** `log` is every record made; `ids` numbers the queued ones, `waited` those waited for and
      `evicted` those evicted, each in the order it happened. */
  datatype Trace = Trace(queue: Queue, log: seq<Status>, ids: seq<nat>, waited: seq<nat>, evicted: seq<nat>)

  function Step(t: Trace, op: Op): Trace
    requires |t.ids| == |t.queue.entries|
  {
    match op
    case Exit(s) =>
      if !Recordable(s) then t
      else
        var full := |t.ids| >= CAPACITY;
        Trace(Record(t.queue, s), t.log + [s], (if full then Without(t.ids, 0) else t.ids) + [|t.log|], t.waited,
              if full then t.evicted + [t.ids[0]] else t.evicted)
    case WaitFor(p) =>
      match if p == 0 then None else FirstOf(t.queue.entries, p)
      case None => t
      case Some(i) => t.(queue := Wait(t.queue, p).0, ids := Without(t.ids, i), waited := t.waited + [t.ids[i]])
  }

  predicate Increasing(xs: seq<nat>) { forall i, j :: 0 <= i < j < |xs| ==> xs[i] < xs[j] }

  ghost predicate Numbered(t: Trace) {
    && |t.ids| == |t.queue.entries| <= CAPACITY
    && (forall k :: 0 <= k < |t.ids| ==> t.ids[k] < |t.log| && t.queue.entries[k] == t.log[t.ids[k]])
    && Increasing(t.ids)
    && (forall k :: 0 <= k < |t.waited| ==> t.waited[k] < |t.log|)
    && (forall k :: 0 <= k < |t.evicted| ==> t.evicted[k] < |t.log|)
  }

  /** Every record is queued, waited for or evicted, and the counters say so. */
  ghost predicate Accounted(t: Trace) {
    && t.queue.records == |t.log| == |t.ids| + |t.waited| + |t.evicted|
    && t.queue.waits == |t.waited| && t.queue.drops == |t.evicted|
    && (forall n :: 0 <= n < |t.log| ==> n in t.ids || n in t.waited || n in t.evicted)
  }

  /** Evictions go from the oldest on, below everything still queued. */
  ghost predicate OldestFirst(t: Trace) {
    Increasing(t.evicted) && forall e, i :: e in t.evicted && i in t.ids ==> e < i
  }

  /** A parent's waits come in recording order, before its queued records. */
  ghost predicate ParentOrder(t: Trace)
    requires Numbered(t)
  {
    && (forall a, b :: 0 <= a < b < |t.waited| && t.log[t.waited[a]].parent == t.log[t.waited[b]].parent ==>
      t.waited[a] < t.waited[b])
    && (forall a, k :: 0 <= a < |t.waited| && 0 <= k < |t.ids| ==>
          t.log[t.waited[a]].parent == t.log[t.ids[k]].parent ==> t.waited[a] < t.ids[k])
  }

  ghost predicate Inv(t: Trace) { Numbered(t) && Accounted(t) && OldestFirst(t) && ParentOrder(t) }

  // ----- removing one element

  lemma WithoutAt<T>(xs: seq<T>, i: nat)
    requires i < |xs|
    ensures forall k :: 0 <= k < |xs| - 1 ==> Without(xs, i)[k] == if k < i then xs[k] else xs[k + 1]
    ensures forall x :: x in Without(xs, i) ==> x in xs
    ensures forall x :: x in xs && x != xs[i] ==> x in Without(xs, i)
  {
    var ys := Without(xs, i);
    forall x | x in xs && x != xs[i] ensures x in ys {
      var k :| 0 <= k < |xs| && xs[k] == x;
      if k < i {
        assert ys[k] == x;
      } else {
        assert ys[k - 1] == x;
      }
    }
  }

  lemma WithoutIncreasing(xs: seq<nat>, i: nat)
    requires i < |xs| && Increasing(xs)
    ensures Increasing(Without(xs, i))
    ensures forall x :: x in Without(xs, i) ==> x != xs[i]
  {
    WithoutAt(xs, i);
    var ys := Without(xs, i);
    forall x | x in ys ensures x != xs[i] {
      var k :| 0 <= k < |ys| && ys[k] == x;
    }
  }

  // ----- each step keeps the accounts

  /** The oldest record evicted. */
  function Evict(t: Trace): Trace
    requires |t.ids| == |t.queue.entries| > 0
  {
    t.(queue := t.queue.(entries := Without(t.queue.entries, 0), drops := t.queue.drops + 1), ids := Without(t.ids, 0),
       evicted := t.evicted + [t.ids[0]])
  }

  function Append(t: Trace, s: Status): Trace {
    t.(queue := t.queue.(entries := t.queue.entries + [s], records := t.queue.records + 1), log := t.log + [s],
      ids := t.ids + [|t.log|])
  }

  lemma EvictInv(t: Trace)
    requires Inv(t) && |t.ids| > 0
    ensures Inv(Evict(t))
  {
    var u := Evict(t);
    WithoutAt(t.ids, 0);
    WithoutAt(t.queue.entries, 0);
    WithoutIncreasing(t.ids, 0);
    assert Numbered(u);
    assert Accounted(u) by {
      forall n | 0 <= n < |u.log| ensures n in u.ids || n in u.waited || n in u.evicted {
        if n == t.ids[0] {
          assert u.evicted[|t.evicted|] == n;
        }
      }
    }
    assert OldestFirst(u) by { EvictOldest(t, u); }
  }

  lemma EvictOldest(t: Trace, u: Trace)
    requires OldestFirst(t) && |t.ids| > 0 && Increasing(t.ids)
    requires u.ids == Without(t.ids, 0) && u.evicted == t.evicted + [t.ids[0]]
    ensures OldestFirst(u)
  {
    WithoutAt(t.ids, 0);
    forall i, j | 0 <= i < j < |u.evicted| ensures u.evicted[i] < u.evicted[j] {
      if j == |t.evicted| {
        assert t.evicted[i] in t.evicted && t.ids[0] in t.ids;
      }
    }
    forall e, i | e in u.evicted && i in u.ids ensures e < i {
      if e == t.ids[0] {
        var k :| 0 <= k < |u.ids| && u.ids[k] == i;
        assert i == t.ids[k + 1];
      }
    }
  }

  lemma AppendInv(t: Trace, s: Status)
    requires Inv(t) && |t.ids| < CAPACITY
    ensures Inv(Append(t, s))
  {
    var u := Append(t, s);
    assert Numbered(u);
    assert Accounted(u) by {
      forall n | 0 <= n < |u.log| ensures n in u.ids || n in u.waited || n in u.evicted {
        if n == |t.log| {
          assert u.ids[|t.ids|] == n;
        }
      }
    }
  }

  lemma ExitInv(t: Trace, s: Status)
    requires Inv(t)
    ensures |t.ids| == |t.queue.entries| && Inv(Step(t, Exit(s)))
  {
    hide Inv;
    assert |t.ids| == |t.queue.entries| <= CAPACITY by { InvShape(t); }
    if Recordable(s) {
      if |t.ids| >= CAPACITY {
        EvictInv(t);
        AppendInv(Evict(t), s);
        assert Step(t, Exit(s)) == Append(Evict(t), s);
      } else {
        AppendInv(t, s);
        assert Step(t, Exit(s)) == Append(t, s);
      }
    }
  }

  lemma WaitInv(t: Trace, p: nat)
    requires Inv(t)
    ensures Inv(Step(t, WaitFor(p)))
  {
    hide Increasing, Accounted, OldestFirst, ParentOrder;
    if p != 0 && FirstOf(t.queue.entries, p).Some? {
      var i := FirstOf(t.queue.entries, p).value;
      WithoutAt(t.ids, i);
      WithoutAt(t.queue.entries, i);
      WithoutIncreasing(t.ids, i);
      var u := Step(t, WaitFor(p));
      assert Numbered(u);
      WaitAccounted(t, u, i);
      WaitOldest(t, u, i);
      WaitOrder(t, u, i, p);
    }
  }

  lemma WaitAccounted(t: Trace, u: Trace, i: nat)
    requires Accounted(t) && i < |t.ids|
    requires u == t.(queue := u.queue, ids := Without(t.ids, i), waited := t.waited + [t.ids[i]])
    requires u.queue.records == t.queue.records && u.queue.drops == t.queue.drops && u.queue.waits == t.queue.waits + 1
    ensures Accounted(u)
  {
    WithoutAt(t.ids, i);
    forall n | 0 <= n < |u.log| ensures n in u.ids || n in u.waited || n in u.evicted {
      if n == t.ids[i] {
        assert u.waited[|t.waited|] == n;
      }
    }
  }

  lemma WaitOldest(t: Trace, u: Trace, i: nat)
    requires OldestFirst(t) && i < |t.ids| && u.evicted == t.evicted && u.ids == Without(t.ids, i)
    ensures OldestFirst(u)
  {
    WithoutAt(t.ids, i);
  }

  lemma WaitOrder(t: Trace, u: Trace, i: nat, p: nat)
    requires Numbered(t) && Numbered(u) && ParentOrder(t) && FirstOf(t.queue.entries, p) == Some(i)
    requires u.log == t.log && u.ids == Without(t.ids, i) && u.waited == t.waited + [t.ids[i]]
    ensures ParentOrder(u)
  {
    WithoutAt(t.ids, i);
    forall a, k | 0 <= a < |u.waited| && 0 <= k < |u.ids| && u.log[u.waited[a]].parent == u.log[u.ids[k]].parent
      ensures u.waited[a] < u.ids[k]
    {
      var j := if k < i then k else k + 1;
      assert u.ids[k] == t.ids[j];
      if a == |t.waited| {
        assert t.queue.entries[j].parent == p;
        assert i < j;
      }
    }
  }

  lemma StepInv(t: Trace, op: Op)
    requires Inv(t)
    ensures Inv(Step(t, op))
  {
    hide Inv, Step;
    assert |t.ids| == |t.queue.entries| by { InvShape(t); }
    match op {
      case Exit(s) => ExitInv(t, s);
      case WaitFor(p) => WaitInv(t, p);
    }
  }

  lemma InvShape(t: Trace)
    requires Inv(t)
    ensures |t.ids| == |t.queue.entries| <= CAPACITY
  {
  }

  function Run(t: Trace, ops: seq<Op>): Trace
    requires Inv(t)
    decreases |ops|
  {
    hide Inv, Step;
    InvShape(t);
    if ops == [] then t
    else
      StepInv(t, ops[0]);
      Run(Step(t, ops[0]), ops[1..])
  }

  /** On every run: records equal waits plus drops plus depth, and the depth stays within the
      capacity; and the numbering describes what happened. */
  lemma {:induction false} RunAccounts(t: Trace, ops: seq<Op>)
    requires Inv(t)
    ensures var u := Run(t, ops);
      Inv(u) && u.queue.records == u.queue.waits + u.queue.drops + |u.queue.entries| && |u.queue.entries| <= CAPACITY
    decreases |ops|
  {
    if ops != [] {
      hide Inv, Step;
      InvShape(t);
      StepInv(t, ops[0]);
      RunAccounts(Step(t, ops[0]), ops[1..]);
    }
  }

  /** Each parent is told of its children in recording order, and a record passed over by a
      later one of the same parent was evicted. */
  lemma OmitsOnlyEvicted(t: Trace, a: nat, n: nat)
    requires Inv(t) && a < |t.waited| && n < t.waited[a] && t.log[n].parent == t.log[t.waited[a]].parent
    ensures n in t.evicted || exists b :: 0 <= b < a && t.waited[b] == n
  {
    forall k | 0 <= k < |t.ids| ensures t.ids[k] != n {
    }
    if n in t.waited {
      var b :| 0 <= b < |t.waited| && t.waited[b] == n;
    }
  }

  /** A record is queued, waited for or evicted, and only once in all. */
  lemma OneFate(t: Trace)
    requires Numbered(t) && Accounted(t)
    ensures Finite.NoDup(t.ids + t.waited + t.evicted)
    ensures forall n :: n in t.ids + t.waited + t.evicted <==> 0 <= n < |t.log|
  {
    var all := t.ids + t.waited + t.evicted;
    forall n ensures n in all <==> 0 <= n < |t.log| {
      assert n in all <==> n in t.ids || n in t.waited || n in t.evicted;
    }
    var numbers := seq(|t.log|, k => k);
    Finite.NoDupCardinality(numbers);
    forall n ensures n in numbers <==> 0 <= n < |t.log| {
      assert 0 <= n < |t.log| ==> numbers[n] == n;
    }
    assert Finite.Elements(all) == Finite.Elements(numbers);
    Finite.FullNoDup(all);
  }

  ghost predicate OldestQueued(t: Trace, p: nat, k: nat)
    requires Numbered(t) && k < |t.ids|
  {
    forall j :: 0 <= j < |t.ids| && t.log[t.ids[j]].parent == p ==> t.ids[k] <= t.ids[j]
  }

  /** A wait returns the oldest record of the parent that is still queued. */
  lemma WaitsOldest(t: Trace, p: nat)
    requires Inv(t) && p != 0
    ensures match Wait(t.queue, p).1
      case None => forall k :: 0 <= k < |t.ids| ==> t.log[t.ids[k]].parent != p
      case Some(s) => s.parent == p && exists k :: 0 <= k < |t.ids| && t.log[t.ids[k]] == s && OldestQueued(t, p, k)
  {
    var r := FirstOf(t.queue.entries, p);
    if r.Some? {
      var k := r.value;
      assert t.log[t.ids[k]] == t.queue.entries[k];
      forall j | 0 <= j < |t.ids| && t.log[t.ids[j]].parent == p ensures t.ids[k] <= t.ids[j] {
        assert t.queue.entries[j].parent == p;
      }
    }
  }

  /** The exits that name two different processes, in order. */
  function Reported(ops: seq<Op>): seq<Status> {
    if ops == [] then []
    else
      var op := ops[0];
      (if op.Exit? && op.status.parent > 0 && op.status.child > 0 && op.status.child != op.status.parent
       then [op.status] else []) + Reported(ops[1..])
  }

  /** Over every run the records made are the exits that name two different processes, in order,
      and none is evicted unless sixteen were queued. */
  lemma {:induction false} RunRecords(t: Trace, ops: seq<Op>)
    requires Inv(t)
    ensures Run(t, ops).log == t.log + Reported(ops)
    ensures |t.ids| + |Reported(ops)| <= 16 ==> Run(t, ops).evicted == t.evicted
    decreases |ops|
  {
    hide Inv, Wait, Record;
    InvShape(t);
    if ops == [] {
      assert t.log + [] == t.log;
    } else {
      StepInv(t, ops[0]);
      var u := Step(t, ops[0]);
      RunRecords(u, ops[1..]);
      if ops[0].Exit? && Recordable(ops[0].status) {
        assert t.log + Reported(ops) == t.log + [ops[0].status] + Reported(ops[1..]);
      } else {
        assert Reported(ops) == Reported(ops[1..]);
      }
    }
  }

  const START: Trace := Trace(EMPTY, [], [], [], [])

  /** From the empty queue on, then: every record made is queued, waited for or evicted, once,
      and the three counters and the depth say how many of each there are. */
  lemma RunFromEmpty(ops: seq<Op>)
    ensures Inv(START)
    ensures var u := Run(START, ops);
      && u.queue.records == u.queue.waits + u.queue.drops + |u.queue.entries| && |u.queue.entries| <= CAPACITY
      && Finite.NoDup(u.ids + u.waited + u.evicted)
      && (forall n :: n in u.ids + u.waited + u.evicted <==> 0 <= n < |u.log|)
  {
    assert Inv(START) by { StartInv(); }
    RunAccounts(START, ops);
    OneFate(Run(START, ops));
  }

  lemma StartInv()
    ensures Inv(START)
  {
  }

  // ----- the queue as it runs

  class ChildStatusQueue {
    const slots: array<Status>
    var count: nat
    var records: nat
    var waits: nat
    var drops: nat

    ghost predicate Valid() reads this {
      slots.Length == CAPACITY && count <= CAPACITY
    }

    ghost function Snapshot(): Queue
      requires Valid()
      reads this, slots
    {
      Queue(slots[..count], records, waits, drops)
    }

    constructor ()
      ensures Valid() && fresh(slots) && Snapshot() == EMPTY
    {
      slots := new Status[CAPACITY](_ => Status(0, 0, 0));
      count, records, waits, drops := 0, 0, 0, 0;
    }

    /** `remove_child_status_at`: the records behind it move up one place. */
    method RemoveAt(index: nat)
      requires Valid() && index < count
      modifies this`count, slots
      ensures Valid() && count == old(count) - 1 && slots[..count] == Without(old(slots[..count]), index)
    {
      var i := index;
      while i + 1 < count
        invariant Valid() && count == old(count) && index <= i < count
        invariant forall k :: 0 <= k < count ==> slots[k] == if index <= k < i then old(slots[k + 1]) else old(slots[k])
      {
        slots[i] := slots[i + 1];
        i := i + 1;
      }
      count := count - 1;
      slots[count] := Status(0, 0, 0);
    }

    /** `x86_64_process_record_child_exit`. */
    method RecordChildExit(parent: nat, child: nat, code: nat) returns (ok: bool)
      requires Valid()
      modifies this, slots
      ensures Valid() && Snapshot() == Record(old(Snapshot()), Status(parent, child, code))
      ensures ok == Recordable(Status(parent, child, code))
    {
      if parent == 0 || child == 0 || parent == child {
        return false;
      }
      if count >= CAPACITY {
        RemoveAt(0);
        drops := drops + 1;
      }
      ghost var kept := slots[..count];
      slots[count] := Status(parent, child, code);
      count := count + 1;
      records := records + 1;
      assert slots[..count] == kept + [Status(parent, child, code)];
      return true;
    }

    /** `x86_64_process_wait_child`. */
    method WaitChild(parent: nat) returns (r: Option<Status>)
      requires Valid()
      modifies this, slots
      ensures Valid() && (Snapshot(), r) == Wait(old(Snapshot()), parent)
    {
      if parent == 0 {
        return None;
      }
      for i := 0 to count
        invariant FirstOf(slots[..count], parent) == FirstOf(slots[..count], parent, i)
        invariant Valid() && Snapshot() == old(Snapshot())
      {
        if slots[i].parent == parent {
          r := Some(slots[i]);
          waits := waits + 1;
          RemoveAt(i);
          return;
        }
      }
      return None;
    }
  }
}
