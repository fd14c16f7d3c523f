/** Round-robin selection over a fixed number of slots: the first ready slot at or cyclically
    after the cursor, which then moves past it. Both kernels' schedulers select this way. */
module RoundRobin {
  import opened Wrappers
  /** How many slots after `cursor` slot `k` comes, cyclically. */
  function Distance(cursor: nat, k: nat, n: nat): (d: nat)
    requires cursor < n && k < n
    ensures d < n
  {
    if cursor <= k then k - cursor else k + n - cursor
  }

  /** The slot `d` places after `cursor`. */
  function At(cursor: nat, d: nat, n: nat): (k: nat)
    requires cursor < n && d < n
    ensures k < n
  {
    if cursor + d < n then cursor + d else cursor + d - n
  }

  /** The search as the kernels make it, `d` slots already passed over. */
  function SelectFrom(ready: seq<bool>, cursor: nat, d: nat): (r: Option<nat>)
    requires cursor < |ready| && d <= |ready|
    decreases |ready| - d
  {
    if d == |ready| then None
    else if ready[At(cursor, d, |ready|)] then Some(At(cursor, d, |ready|))
    else SelectFrom(ready, cursor, d + 1)
  }

  function Select(ready: seq<bool>, cursor: nat): Option<nat>
    requires cursor < |ready|
  {
    SelectFrom(ready, cursor, 0)
  }

  function Next(selected: nat, n: nat): nat
    requires selected < n
  {
    (selected + 1) % n
  }

  /** The kernels compute the place with a remainder. */
  lemma AtIsModulo(cursor: nat, d: nat, n: nat)
    requires cursor < n && d < n
    ensures At(cursor, d, n) == (cursor + d) % n
  {
    var x := cursor + d;
    var q := x / n;
    assert x == q * n + x % n;
    Monotone(2, q, n);
    assert q == 0 ==> q * n == 0;
    assert q == 1 ==> q * n == n;
  }

  lemma Monotone(a: nat, b: nat, n: nat)
    ensures a <= b ==> a * n <= b * n
  {
  }

  lemma AtDistance(cursor: nat, k: nat, n: nat)
    requires cursor < n && k < n
    ensures Distance(cursor, k, n) < n && At(cursor, Distance(cursor, k, n), n) == k
  {
  }

  /** Selection yields a ready slot no farther than any ready slot, or none when none is. */
  lemma {:induction false} SelectsNearest(ready: seq<bool>, cursor: nat, d: nat, k: nat)
    requires cursor < |ready| && d <= |ready| && k < |ready| && ready[k] && Distance(cursor, k, |ready|) >= d
    ensures var r := SelectFrom(ready, cursor, d);
      && r.Some? && r.value < |ready| && ready[r.value]
      && d <= Distance(cursor, r.value, |ready|) <= Distance(cursor, k, |ready|)
    decreases |ready| - d
  {
    AtDistance(cursor, k, |ready|);
    if !ready[At(cursor, d, |ready|)] {
      SelectsNearest(ready, cursor, d + 1, k);
    }
  }

  lemma {:induction false} SelectsReady(ready: seq<bool>, cursor: nat, d: nat)
    requires cursor < |ready| && d <= |ready|
    ensures var r := SelectFrom(ready, cursor, d); r.Some? ==> r.value < |ready| && ready[r.value]
    decreases |ready| - d
  {
    if d < |ready| && !ready[At(cursor, d, |ready|)] {
      SelectsReady(ready, cursor, d + 1);
    }
  }

  /** Passing over a ready slot brings the cursor strictly closer to it. */
  lemma Closer(ready: seq<bool>, cursor: nat, k: nat)
    requires cursor < |ready| && k < |ready| && ready[k]
    ensures var r := Select(ready, cursor);
      && r.Some? && r.value < |ready|
      && (r.value != k ==> Distance(Next(r.value, |ready|), k, |ready|) < Distance(cursor, k, |ready|))
  {
    var n := |ready|;
    SelectsNearest(ready, cursor, 0, k);
    var s := Select(ready, cursor).value;
    if s != k {
      NextIs(s, n);
    }
  }

  lemma NextIs(s: nat, n: nat)
    requires s < n
    ensures Next(s, n) == if s + 1 == n then 0 else s + 1
  {
  }

  /** The slots selected when selections meet these readiness vectors in turn. */
  function Selections(history: seq<seq<bool>>, cursor: nat, n: nat): seq<Option<nat>>
    requires cursor < n && forall h :: h in history ==> |h| == n
    decreases |history|
  {
    if history == [] then []
    else
      SelectsReady(history[0], cursor, 0);
      var r := Select(history[0], cursor);
      [r] + Selections(history[1..], if r.Some? then Next(r.value, n) else cursor, n)
  }

  /** Bounded bypass, by distance: ready at each selection, a slot `d` places ahead is selected
      among the first `d + 1`. */
  lemma {:induction false} SelectedWithin(history: seq<seq<bool>>, cursor: nat, n: nat, k: nat) returns (j: nat)
    requires cursor < n && k < n && (forall h :: h in history ==> |h| == n && h[k])
    requires Distance(cursor, k, n) < |history|
    ensures j < |history| && j <= Distance(cursor, k, n)
    ensures |Selections(history, cursor, n)| > j && Selections(history, cursor, n)[j] == Some(k)
    decreases |history|
  {
    Closer(history[0], cursor, k);
    var s := Select(history[0], cursor).value;
    if s == k {
      j := 0;
    } else {
      var i := SelectedWithin(history[1..], Next(s, n), n, k);
      j := i + 1;
    }
  }

  /** A slot ready at `n` consecutive selections is selected at least once among them. */
  lemma BoundedBypass(history: seq<seq<bool>>, cursor: nat, n: nat, k: nat)
    requires cursor < n && k < n && |history| == n && (forall h :: h in history ==> |h| == n && h[k])
    ensures Some(k) in Selections(history, cursor, n)
  {
    AtDistance(cursor, k, n);
    var j := SelectedWithin(history, cursor, n, k);
  }
}
