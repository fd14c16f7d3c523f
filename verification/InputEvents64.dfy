/** The input-event ring with per-reader cursors, and the keyboard character buffer. */
module InputEvents64 {
  import opened MachineWords
  import CB = CyclicBuffer

  const CAPACITY: nat := 64
  const CHARS: nat := 128

  /** The fields an event carries besides its sequence number. */
  datatype Payload = Payload(kind: nat, code: nat, value: nat, flags: nat, tick: nat)

  datatype Event = Event(sequence: nat, payload: Payload)

  /** The queued events, oldest first. */
  datatype Ring = Ring(events: seq<Event>, drops: nat, next: nat)

  const FRESH: Ring := Ring([], 0, 1)

  /** `input_event_latest_sequence`. */
  function Latest(r: Ring): nat { if r.next == 0 then 0 else r.next - 1 }

  /** `input_event_push`: when full, the oldest event is dropped. */
  function Push(r: Ring, p: Payload): Ring {
    var full := |r.events| >= CAPACITY;
    Ring((if full then r.events[1..] else r.events) + [Event(r.next, p)], r.drops + (if full then 1 else 0),
      (r.next + 1) % U32)
  }

  /** The events after `cursor` among those from place `i` on, at most `max` of them. */
  function Collect(events: seq<Event>, i: nat, cursor: nat, max: nat): seq<Event>
    requires i <= |events|
    decreases |events| - i
  {
    if i == |events| || max == 0 then []
    else if events[i].sequence > cursor then [events[i]] + Collect(events, i + 1, cursor, max - 1)
    else Collect(events, i + 1, cursor, max)
  }

  /** Where a reader starts: no earlier than just before the oldest queued event. */
  function StartOf(r: Ring, cursor: nat): nat
    requires r.events != []
  {
    var before := (r.events[0].sequence + U32 - 1) % U32;
    if cursor < before then before else cursor
  }

  /** `x86_64_input_events_read_from`: the events copied out and the reader's new cursor. */
  function Read(r: Ring, cursor: nat, max: nat): (seq<Event>, nat) {
    if max == 0 then ([], cursor)
    else if r.events == [] then ([], Latest(r))
    else
      var got := Collect(r.events, 0, StartOf(r, cursor), max);
      (got, if got == [] then cursor else got[|got| - 1].sequence)
  }

  // ----- what the ring keeps

  /** Queued events carry consecutive sequence numbers ending at the latest, and every event
      pushed is queued or dropped. */
  ghost predicate Good(r: Ring) {
    && |r.events| <= CAPACITY && r.drops + |r.events| + 1 == r.next < U32
    && (forall i :: 0 <= i < |r.events| ==> r.events[i].sequence == r.drops + 1 + i)
    && (r.drops > 0 ==> |r.events| == CAPACITY)
  }

  lemma PushKeeps(r: Ring, p: Payload)
    requires Good(r) && r.next + 1 < U32
    ensures Good(Push(r, p)) && Push(r, p).next == r.next + 1 && r.drops <= Push(r, p).drops
  {
  }

  function Least(a: nat, b: nat): nat { if a < b then a else b }

  /** Reached the unread part: everything from `i` on, up to `max`. */
  lemma {:induction false} CollectAll(events: seq<Event>, i: nat, cursor: nat, max: nat)
    requires i <= |events| && forall k :: i <= k < |events| ==> events[k].sequence > cursor
    ensures Collect(events, i, cursor, max) == events[i..Least(i + max, |events|)]
    decreases |events| - i
  {
    if i < |events| && max > 0 {
      CollectAll(events, i + 1, cursor, max - 1);
      var to := Least(i + max, |events|);
      assert events[i..to] == [events[i]] + events[i + 1..to];
    }
  }

  /** Everything before the unread part is skipped. */
  lemma {:induction false} CollectSkips(events: seq<Event>, i: nat, from: nat, cursor: nat, max: nat)
    requires i <= from <= |events| && forall k :: i <= k < from ==> events[k].sequence <= cursor
    ensures Collect(events, i, cursor, max) == Collect(events, from, cursor, max)
    decreases from - i
  {
    if i < from {
      CollectSkips(events, i + 1, from, cursor, max);
    }
  }

  function Later(a: nat, b: nat): nat { if a < b then b else a }

  /** The first sequence number a read can deliver. */
  function FirstUnread(r: Ring, cursor: nat): nat { Later(cursor, r.drops) + 1 }

  function Count(r: Ring, cursor: nat, max: nat): nat {
    var left := if FirstUnread(r, cursor) < r.next then r.next - FirstUnread(r, cursor) else 0;
    if max < left then max else left
  }

  /** A read delivers the next unread events still queued, in order, without a gap among them,
      and leaves the cursor on the last one. */
  lemma ReadIs(r: Ring, cursor: nat, max: nat)
    requires Good(r) && cursor < U32
    ensures var (got, c) := Read(r, cursor, max);
      && |got| == Count(r, cursor, max)
      && (forall k :: 0 <= k < |got| ==> got[k].sequence == FirstUnread(r, cursor) + k && got[k] in r.events)
      && (got != [] ==> c == FirstUnread(r, cursor) + |got| - 1)
      && (got == [] && max > 0 && r.events == [] ==> c == 0)
      && (got == [] && (max == 0 || r.events != []) ==> c == cursor)
  {
    hide Collect;
    if max > 0 && r.events != [] {
      ReadSlice(r, cursor, max);
    }
  }

  lemma ReadSlice(r: Ring, cursor: nat, max: nat)
    requires Good(r) && cursor < U32 && max > 0 && r.events != []
    ensures var from := Least(Later(cursor, r.drops) - r.drops, |r.events|);
      Collect(r.events, 0, StartOf(r, cursor), max) == r.events[from..Least(from + max, |r.events|)]
  {
    hide Collect;
    var start := StartOf(r, cursor);
    assert start == Later(cursor, r.drops);
    var from := Least(start - r.drops, |r.events|);
    CollectSkips(r.events, 0, from, start, max);
    CollectAll(r.events, from, start, max);
  }

  // ----- a reader over a whole run

  datatype Op = Arrive(payload: Payload) | Fetch(max: nat)

  /** The ring, one reader's cursor and everything it received. */
  datatype View = View(ring: Ring, cursor: nat, got: seq<Event>)

  function Step(v: View, op: Op): View {
    match op
    case Arrive(p) => v.(ring := Push(v.ring, p))
    case Fetch(max) => var (got, c) := Read(v.ring, v.cursor, max); v.(cursor := c, got := v.got + got)
  }

  function Run(v: View, ops: seq<Op>): View
    decreases |ops|
  {
    if ops == [] then v else Run(Step(v, ops[0]), ops[1..])
  }

  /** What a reader that started at `origin` has: strictly increasing sequence numbers up to its
      cursor; and every number it lacks was dropped from the ring. */
  ghost predicate Received(v: View, origin: nat) {
    && Good(v.ring) && origin <= v.cursor < v.ring.next
    && (forall k :: 0 <= k < |v.got| ==> origin < v.got[k].sequence <= v.cursor)
    && (forall j, k :: 0 <= j < k < |v.got| ==> v.got[j].sequence < v.got[k].sequence)
    && (forall q :: origin < q <= v.cursor && q > v.ring.drops ==> Has(v.got, q))
  }

  ghost predicate Has(got: seq<Event>, q: nat) { exists k :: 0 <= k < |got| && got[k].sequence == q }

  lemma HasMore(got: seq<Event>, more: seq<Event>, q: nat)
    ensures Has(got, q) || Has(more, q) ==> Has(got + more, q)
  {
    if Has(got, q) {
      var k :| 0 <= k < |got| && got[k].sequence == q;
      assert (got + more)[k] == got[k];
    } else if Has(more, q) {
      var k :| 0 <= k < |more| && more[k].sequence == q;
      assert (got + more)[|got| + k] == more[k];
    }
  }

  lemma ArriveReceived(v: View, origin: nat, p: Payload)
    requires Received(v, origin) && v.ring.next + 1 < U32
    ensures Received(Step(v, Arrive(p)), origin)
  {
    hide Good, Push, Has;
    PushKeeps(v.ring, p);
  }

  lemma FetchReceived(v: View, origin: nat, max: nat)
    requires Received(v, origin)
    ensures Received(Step(v, Fetch(max)), origin) && v.cursor <= Step(v, Fetch(max)).cursor
  {
    hide Read, Has;
    var (got, c) := Read(v.ring, v.cursor, max);
    ReadIs(v.ring, v.cursor, max);
    var u := Step(v, Fetch(max));
    forall q | origin < q <= u.cursor && q > v.ring.drops ensures Has(u.got, q) {
      if q > v.cursor {
        assert got[q - FirstUnread(v.ring, v.cursor)].sequence == q;
        HasAt(got, q - FirstUnread(v.ring, v.cursor));
      }
      HasMore(v.got, got, q);
    }
  }

  lemma HasAt(got: seq<Event>, k: nat)
    requires k < |got|
    ensures Has(got, got[k].sequence)
  {
  }

  /** Over every run a reader receives strictly increasing sequence numbers, so no event twice,
      and misses only events the ring dropped. */
  lemma {:induction false} RunReceived(v: View, origin: nat, ops: seq<Op>)
    requires Received(v, origin) && v.ring.next + |ops| < U32
    ensures Received(Run(v, ops), origin)
    decreases |ops|
  {
    hide Received, Step;
    if ops != [] {
      NextBound(v, origin, ops[0]);
      match ops[0] {
        case Arrive(p) => ArriveReceived(v, origin, p);
        case Fetch(max) => FetchReceived(v, origin, max);
      }
      RunReceived(Step(v, ops[0]), origin, ops[1..]);
    }
  }

  lemma NextBound(v: View, origin: nat, op: Op)
    requires Received(v, origin) && v.ring.next + 1 < U32
    ensures Step(v, op).ring.next <= v.ring.next + 1
  {
    hide Has;
  }

  // ----- a reader that keeps up

  /** A read loses events exactly when more than the capacity arrived since the cursor. */
  lemma LosesExactly(r: Ring, cursor: nat)
    requires Good(r) && cursor < r.next
    ensures FirstUnread(r, cursor) == cursor + 1 <==> r.next - 1 - cursor <= CAPACITY
  {
  }

  /** Everything from `origin` up to the cursor was received, exactly once and in order. */
  ghost predicate Complete(v: View, origin: nat) {
    && Good(v.ring) && origin <= v.cursor < v.ring.next && |v.got| == v.cursor - origin
    && (forall k :: 0 <= k < |v.got| ==> v.got[k].sequence == origin + 1 + k)
  }

  /** No read of the run comes after more than the capacity of unread arrivals. */
  ghost predicate KeepsUp(v: View, ops: seq<Op>)
    decreases |ops|
  {
    ops == [] || ((ops[0].Fetch? ==> v.ring.next <= v.cursor + 1 + CAPACITY) && KeepsUp(Step(v, ops[0]), ops[1..]))
  }

  lemma FetchComplete(v: View, origin: nat, max: nat)
    requires Complete(v, origin) && v.ring.next <= v.cursor + 1 + CAPACITY
    ensures Complete(Step(v, Fetch(max)), origin)
  {
    hide Read;
    ReadIs(v.ring, v.cursor, max);
    LosesExactly(v.ring, v.cursor);
  }

  lemma ArriveComplete(v: View, origin: nat, p: Payload)
    requires Complete(v, origin) && v.ring.next + 1 < U32
    ensures Complete(Step(v, Arrive(p)), origin)
  {
    hide Good, Push;
    PushKeeps(v.ring, p);
  }

  /** A reader that drains within every 64 arrivals sees each event exactly once. */
  lemma {:induction false} RunComplete(v: View, origin: nat, ops: seq<Op>)
    requires Complete(v, origin) && KeepsUp(v, ops) && v.ring.next + |ops| < U32
    ensures Complete(Run(v, ops), origin)
    decreases |ops|
  {
    hide Complete, Step;
    if ops != [] {
      match ops[0] {
        case Arrive(p) =>
          ArriveComplete(v, origin, p);
          CompleteBound(v, origin, ops[0]);
        case Fetch(max) =>
          FetchComplete(v, origin, max);
          CompleteBound(v, origin, ops[0]);
      }
      RunComplete(Step(v, ops[0]), origin, ops[1..]);
    }
  }

  lemma CompleteBound(v: View, origin: nat, op: Op)
    requires Complete(v, origin) && v.ring.next + 1 < U32
    ensures Step(v, op).ring.next <= v.ring.next + 1
  {
  }

  // ----- what the events say

  /** Each event carries the payload that arrived under its number. */
  ghost predicate Faithful(events: seq<Event>, log: seq<Payload>) {
    forall k :: 0 <= k < |events| ==>
      0 < events[k].sequence <= |log| && log[events[k].sequence - 1] == events[k].payload
  }

  function Arrivals(ops: seq<Op>): seq<Payload>
    decreases |ops|
  {
    if ops == [] then [] else Arrived(ops[0]) + Arrivals(ops[1..])
  }

  lemma FaithfulLonger(events: seq<Event>, log: seq<Payload>, more: seq<Payload>)
    requires Faithful(events, log)
    ensures Faithful(events, log + more)
  {
  }

  lemma PushFaithful(r: Ring, log: seq<Payload>, p: Payload)
    requires Good(r) && r.next + 1 < U32 && Faithful(r.events, log) && r.next == |log| + 1
    ensures Faithful(Push(r, p).events, log + [p])
  {
  }

  lemma ReadFaithful(v: View, log: seq<Payload>, max: nat)
    requires Good(v.ring) && v.cursor < U32 && Faithful(v.ring.events, log) && Faithful(v.got, log)
    ensures Faithful(Step(v, Fetch(max)).got, log)
  {
    hide Good, Read;
    ReadIs(v.ring, v.cursor, max);
    var (got, c) := Read(v.ring, v.cursor, max);
    forall k | 0 <= k < |got| ensures 0 < got[k].sequence <= |log| && log[got[k].sequence - 1] == got[k].payload {
      var i :| 0 <= i < |v.ring.events| && v.ring.events[i] == got[k];
    }
  }

  /** The reader's view and the log of arrivals belong together. */
  ghost predicate InStep(v: View, origin: nat, log: seq<Payload>) {
    Received(v, origin) && Faithful(v.ring.events, log) && Faithful(v.got, log) && v.ring.next == |log| + 1
  }

  function Arrived(op: Op): seq<Payload> { if op.Arrive? then [op.payload] else [] }

  lemma StepInStep(v: View, origin: nat, log: seq<Payload>, op: Op)
    requires InStep(v, origin, log) && v.ring.next + 1 < U32
    ensures InStep(Step(v, op), origin, log + Arrived(op)) && Step(v, op).ring.next <= v.ring.next + 1
  {
    hide Faithful, Received, Push, Read, Good;
    NextBound(v, origin, op);
    ReceivedParts(v, origin);
    match op {
      case Arrive(p) =>
        ArriveReceived(v, origin, p);
        PushKeeps(v.ring, p);
        PushFaithful(v.ring, log, p);
        FaithfulLonger(v.got, log, [p]);
      case Fetch(max) =>
        FetchReceived(v, origin, max);
        ReadFaithful(v, log, max);
        assert log + [] == log;
    }
  }

  /** Over every run, each event received carries the payload that arrived under its number. */
  lemma {:induction false} RunFaithful(v: View, origin: nat, log: seq<Payload>, ops: seq<Op>)
    requires InStep(v, origin, log) && v.ring.next + |ops| < U32
    ensures Faithful(Run(v, ops).got, log + Arrivals(ops))
    decreases |ops|
  {
    hide InStep, Faithful, Step, Arrived;
    if ops == [] {
      InStepGot(v, origin, log);
      assert log + [] == log;
    } else {
      StepInStep(v, origin, log, ops[0]);
      RunFaithful(Step(v, ops[0]), origin, log + Arrived(ops[0]), ops[1..]);
      Regroup(log, Arrived(ops[0]), Arrivals(ops[1..]));
    }
  }

  lemma InStepGot(v: View, origin: nat, log: seq<Payload>)
    requires InStep(v, origin, log)
    ensures Faithful(v.got, log)
  {
  }

  lemma Regroup<T>(a: seq<T>, b: seq<T>, c: seq<T>)
    ensures a + b + c == a + (b + c)
  {
  }

  lemma ReceivedParts(v: View, origin: nat)
    requires Received(v, origin)
    ensures Good(v.ring) && v.cursor < U32
  {
    hide Has;
  }

  // ----- the ring as it runs

  class EventRing {
    const slots: array<Event>
    var head: nat
    var tail: nat
    var count: nat
    var next: nat
    var drops: nat
    var initialized: bool

    ghost predicate Valid() reads this {
      && slots.Length == CAPACITY && head < CAPACITY && tail < CAPACITY && count <= CAPACITY
      && tail == (head + count) % CAPACITY
    }

    ghost function Snapshot(): Ring
      requires Valid()
      reads this, slots
    {
      Ring(CB.Contents(slots[..], head, count), drops, next)
    }

    constructor ()
      ensures Valid() && fresh(slots) && Snapshot() == FRESH && initialized
    {
      slots := new Event[CAPACITY](_ => Event(0, Payload(0, 0, 0, 0, 0)));
      head, tail, count, next, drops, initialized := 0, 0, 0, 1, 0, true;
    }

    /** `input_event_push`. */
    method PushEvent(p: Payload)
      requires Valid()
      modifies this, slots
      ensures Valid() && initialized == old(initialized) && Snapshot() == Push(old(Snapshot()), p)
    {
      hide CB.Contents;
      if count >= CAPACITY {
        CB.PopFront(slots[..], head, count);
        CB.TailAfterPop(head, count, CAPACITY);
        head := (head + 1) % CAPACITY;
        count := count - 1;
        drops := drops + 1;
      }
      CB.PushBack(slots[..], head, count, Event(next, p));
      CB.TailAfterPush(head, count, CAPACITY);
      slots[tail] := Event(next, p);
      next := (next + 1) % U32;
      tail := (tail + 1) % CAPACITY;
      count := count + 1;
    }

    /** `x86_64_input_events_read_from`: what it copies out and the reader's cursor after it. */
    method ReadFrom(cursor: nat, max: nat) returns (got: seq<Event>, c: nat)
      requires Valid()
      ensures (got, c) == if initialized then Read(Snapshot(), cursor, max) else ([], cursor)
    {
      hide CB.Contents, Collect;
      got, c := [], cursor;
      if max == 0 || !initialized {
        return;
      }
      if count == 0 {
        c := if next == 0 then 0 else next - 1;
        return;
      }
      CB.PopFront(slots[..], head, count);
      var before := (slots[head].sequence + U32 - 1) % U32;
      var start := if cursor < before then before else cursor;
      got := Gather(start, max);
      if got != [] {
        c := got[|got| - 1].sequence;
      }
    }

    /** The copying loop. */
    method Gather(start: nat, max: nat) returns (got: seq<Event>)
      requires Valid()
      ensures got == Collect(Snapshot().events, 0, start, max)
    {
      hide CB.Contents;
      got := [];
      ghost var events := Snapshot().events;
      var i := 0;
      while i < count && |got| < max
        invariant i <= count && |got| <= max
        invariant got + Collect(events, i, start, max - |got|) == Collect(events, 0, start, max)
      {
        CB.ElementAt(slots[..], head, count, i);
        var e := slots[(head + i) % CAPACITY];
        if e.sequence > start {
          ghost var rest := Collect(events, i + 1, start, max - |got| - 1);
          assert got + ([e] + rest) == got + [e] + rest;
          got := got + [e];
        }
        i := i + 1;
      }
      assert got + [] == got;
    }
  }

  // ----- the keyboard character buffer

  /** Characters waiting, those refused for want of room. */
  datatype Chars = Chars(waiting: seq<char>, refused: nat)

  function Keep(b: Chars, c: char): Chars {
    if |b.waiting| >= CHARS then b.(refused := b.refused + 1) else b.(waiting := b.waiting + [c])
  }

  function Take(b: Chars, size: nat): (Chars, seq<char>) {
    var n := if size < |b.waiting| then size else |b.waiting|;
    (b.(waiting := b.waiting[n..]), b.waiting[..n])
  }

  datatype CharOp = Type(c: char) | Get(size: nat)

  /** The characters the buffer accepts over a run, and those handed to readers. */
  function CharRun(b: Chars, ops: seq<CharOp>): (r: (Chars, seq<char>, seq<char>))
    decreases |ops|
  {
    if ops == [] then (b, [], [])
    else match ops[0]
      case Type(c) =>
        var r := CharRun(Keep(b, c), ops[1..]);
        (r.0, (if |b.waiting| >= CHARS then [] else [c]) + r.1, r.2)
      case Get(size) =>
        var (rest, out) := Take(b, size);
        var r := CharRun(rest, ops[1..]);
        (r.0, r.1, out + r.2)
  }

  /** First in, first out: what was waiting and what was accepted, in order, is what was read
      and what still waits; the buffer never exceeds its capacity. */
  lemma {:induction false} CharsInOrder(b: Chars, ops: seq<CharOp>)
    requires |b.waiting| <= CHARS
    ensures var (end, accepted, out) := CharRun(b, ops);
      b.waiting + accepted == out + end.waiting && |end.waiting| <= CHARS
    decreases |ops|
  {
    if ops != [] {
      match ops[0] {
        case Type(c) =>
          CharsInOrder(Keep(b, c), ops[1..]);
          Regroup(b.waiting, [c], CharRun(Keep(b, c), ops[1..]).1);
        case Get(size) =>
          hide Take;
          var (rest, out) := Take(b, size);
          TakeSplits(b, size);
          CharsInOrder(rest, ops[1..]);
          var r := CharRun(rest, ops[1..]);
          Regroup(out, rest.waiting, r.1);
          Regroup(out, r.2, r.0.waiting);
      }
    } else {
      assert b.waiting + [] == [] + b.waiting;
    }
  }

  lemma TakeSplits(b: Chars, size: nat)
    ensures var (rest, out) := Take(b, size); b.waiting == out + rest.waiting && |rest.waiting| <= |b.waiting|
  {
  }

  class KeyboardBuffer {
    const slots: array<char>
    var head: nat
    var tail: nat
    var count: nat
    var refused: nat
    var initialized: bool

    ghost predicate Valid() reads this {
      && slots.Length == CHARS && head < CHARS && tail < CHARS && count <= CHARS && tail == (head + count) % CHARS
    }

    ghost function Snapshot(): Chars
      requires Valid()
      reads this, slots
    {
      Chars(CB.Contents(slots[..], head, count), refused)
    }

    constructor ()
      ensures Valid() && fresh(slots) && Snapshot() == Chars([], 0) && initialized
    {
      slots := new char[CHARS](_ => ' ');
      head, tail, count, refused, initialized := 0, 0, 0, 0, true;
    }

    /** `keyboard_buffer_push`. */
    method PushChar(c: char)
      requires Valid()
      modifies this, slots
      ensures Valid() && initialized == old(initialized) && Snapshot() == Keep(old(Snapshot()), c)
    {
      hide CB.Contents;
      if count >= CHARS {
        refused := refused + 1;
        return;
      }
      CB.PushBack(slots[..], head, count, c);
      CB.TailAfterPush(head, count, CHARS);
      slots[tail] := c;
      tail := (tail + 1) % CHARS;
      count := count + 1;
    }

    /** `x86_64_keyboard_read`. */
    method ReadChars(size: nat) returns (out: seq<char>)
      requires Valid()
      modifies this`head, this`count
      ensures Valid()
      ensures (Snapshot(), out) == if initialized then Take(old(Snapshot()), size) else (old(Snapshot()), [])
    {
      hide CB.Contents;
      out := [];
      if size == 0 || !initialized {
        assert old(Snapshot()).waiting[..0] == [];
        return;
      }
      ghost var before := Snapshot();
      while |out| < size && count > 0
        invariant Valid() && refused == before.refused && |out| <= size
        invariant |out| + count == |before.waiting| && out == before.waiting[..|out|]
        invariant Snapshot().waiting == before.waiting[|out|..]
        decreases count
      {
        CB.PopFront(slots[..], head, count);
        CB.TailAfterPop(head, count, CHARS);
        assert slots[head] == before.waiting[|out|];
        out := out + [slots[head]];
        head := (head + 1) % CHARS;
        count := count - 1;
      }
    }
  }
}
