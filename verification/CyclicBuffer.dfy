/** The contents of a fixed-size buffer used cyclically: `count` elements from `head` on. */
module CyclicBuffer {
  import RR = RoundRobin

  function Contents<T>(a: seq<T>, head: nat, count: nat): (c: seq<T>)
    requires head < |a| && count <= |a|
    ensures |c| == count
  {
    seq(count, i requires 0 <= i < count && head < |a| && count <= |a| => a[RR.At(head, i, |a|)])
  }

  /** Dropping the oldest element moves the head one place on. */
  lemma PopFront<T>(a: seq<T>, head: nat, count: nat)
    requires head < |a| && 0 < count <= |a|
    ensures (head + 1) % |a| < |a|
    ensures Contents(a, (head + 1) % |a|, count - 1) == Contents(a, head, count)[1..]
    ensures Contents(a, head, count)[0] == a[head]
  {
    Next(head, |a|);
  }

  lemma Next(head: nat, n: nat)
    requires head < n
    ensures (head + 1) % n == if head + 1 == n then 0 else head + 1
  {
  }

  /** Writing at the tail appends. */
  lemma PushBack<T>(a: seq<T>, head: nat, count: nat, x: T)
    requires head < |a| && count < |a|
    ensures (head + count) % |a| < |a|
    ensures Contents(a[(head + count) % |a| := x], head, count + 1) == Contents(a, head, count) + [x]
  {
    RR.AtIsModulo(head, count, |a|);
    var t := RR.At(head, count, |a|);
    var b := a[t := x];
    forall i | 0 <= i < count ensures b[RR.At(head, i, |a|)] == a[RR.At(head, i, |a|)] {
    }
  }

  lemma ElementAt<T>(a: seq<T>, head: nat, count: nat, i: nat)
    requires head < |a| && i < count <= |a|
    ensures (head + i) % |a| < |a| && Contents(a, head, count)[i] == a[(head + i) % |a|]
  {
    RR.AtIsModulo(head, i, |a|);
  }

  /** The tail keeps its place relative to the head. */
  lemma TailAfterPop(head: nat, count: nat, n: nat)
    requires head < n && 0 < count <= n
    ensures ((head + 1) % n + (count - 1)) % n == (head + count) % n
  {
    Next(head, n);
    if head + 1 == n {
      var q := (count - 1) / n;
      Wrap(count - 1, n);
    }
  }

  lemma Wrap(x: nat, n: nat)
    requires 0 < n
    ensures (n + x) % n == x % n
  {
    var q, r := x / n, x % n;
    assert n + x == (q + 1) * n + r;
    Unique(n + x, n, q + 1, r);
  }

  lemma Unique(x: nat, n: nat, q: nat, r: nat)
    requires 0 < n && x == q * n + r && r < n
    ensures x % n == r
  {
    var d := x / n - q;
    assert x == (x / n) * n + x % n;
    assert d * n == r - x % n;
  }

  lemma TailAfterPush(head: nat, count: nat, n: nat)
    requires head < n && count < n
    ensures ((head + count) % n + 1) % n == (head + count + 1) % n
  {
    RR.AtIsModulo(head, count, n);
    if head + count >= n {
      Wrap(head + count - n + 1, n);
    }
  }
}
