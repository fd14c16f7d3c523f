/** The x86_64 page allocator: a stack of the pages tracked at boot. */
module Pmm64 {
  import opened MachineWords
  import opened Finite

  const MAX_TRACKED: nat := 65536

  /** Snapshot of `pmm_state` and of the used part of `page_stack`. */
  datatype State = State(ready: bool, stack: seq<nat>, tracked: nat, low: nat, high: nat)

  datatype Outcome = Outcome(state: State, page: nat)

  /** `x86_64_pmm_alloc_page`; page 0 is the failure result. */
  function Alloc(p: State): Outcome {
    if !p.ready || p.stack == [] then Outcome(p, 0)
    else Outcome(p.(stack := p.stack[..|p.stack| - 1]), p.stack[|p.stack| - 1])
  }

  /** The checks of `x86_64_pmm_free_page`, in order. */
  predicate Accepts(p: State, page: nat) {
    && p.ready && page != 0
    && page % PAGE == 0
    && p.low <= page <= p.high
    && page !in p.stack
    && |p.stack| < p.tracked
  }

  function Free(p: State, page: nat): State {
    if Accepts(p, page) then p.(stack := p.stack + [page]) else p
  }

  /** `n` allocations in a row, whether or not they succeed. */
  function AllocMany(p: State, n: nat): (r: (State, seq<nat>))
    ensures |r.1| == n
    decreases n
  {
    if n == 0 then (p, [])
    else
      var a := Alloc(p);
      var rest := AllocMany(a.state, n - 1);
      (rest.0, [a.page] + rest.1)
  }

  function FreeAll(p: State, pages: seq<nat>): State
    decreases |pages|
  {
    if pages == [] then p else FreeAll(Free(p, pages[0]), pages[1..])
  }

  ghost predicate Manageable(p: State, page: nat) {
    page != 0 && page % PAGE == 0 && p.low <= page <= p.high
  }

  /** `pool` is the set of pages tracked at boot: each is on the stack, once, or in `held`. */
  ghost predicate Splits(p: State, held: set<nat>, pool: set<nat>) {
    && p.ready && |pool| <= p.tracked
    && NoDup(p.stack)
    && Elements(p.stack) + held == pool && Elements(p.stack) !! held
    && (forall f :: f in pool ==> Manageable(p, f))
  }

  /** The free count is what is not held. */
  lemma FreeCount(p: State, held: set<nat>, pool: set<nat>)
    requires Splits(p, held, pool)
    ensures |p.stack| + |held| == |pool|
  {
    NoDupCardinality(p.stack);
  }

  lemma AllocSplits(p: State, held: set<nat>, pool: set<nat>)
    requires Splits(p, held, pool)
    ensures var a := Alloc(p);
      && (a.page == 0 ==> a.state == p && p.stack == [])
      && (a.page != 0 ==> a.page !in held && Splits(a.state, held + {a.page}, pool))
  {
    if p.stack != [] {
      var a := Alloc(p);
      var k := |p.stack| - 1;
      assert p.stack == a.state.stack + [a.page];
      assert a.page in Elements(p.stack);
      assert Elements(p.stack) == Elements(a.state.stack) + {a.page};
    }
  }

  /** A page its holder frees is always accepted. */
  lemma FreeSplits(p: State, held: set<nat>, pool: set<nat>, page: nat)
    requires Splits(p, held, pool) && page in held
    ensures Accepts(p, page) && Splits(Free(p, page), held - {page}, pool)
  {
    FreeCount(p, held, pool);
    assert |held| > 0;
    assert page in pool;
    assert Elements(p.stack + [page]) == Elements(p.stack) + {page};
  }

  /** A page of the pool is accepted exactly when it is held, any other page exactly when it is
      aligned, within the bounds seen at boot and some tracked place is vacant; the page freed
      last is handed out next. */
  lemma FreeExactly(p: State, held: set<nat>, pool: set<nat>, page: nat)
    requires Splits(p, held, pool)
    ensures Accepts(p, page) <==>
      page in held || (page !in pool && page != 0 && page % PAGE == 0 && p.low <= page <= p.high
                       && |pool| < p.tracked + |held|)
    ensures if Accepts(p, page) then Alloc(Free(p, page)) == Outcome(p, page) else Free(p, page) == p
  {
    FreeCount(p, held, pool);
    if page in held {
      FreeSplits(p, held, pool, page);
    } else if page in p.stack {
      assert page in Elements(p.stack);
    } else {
      assert page !in Elements(p.stack);
    }
    assert (p.stack + [page])[..|p.stack|] == p.stack;
  }

  /** The pages of a list, zeros being failures. */
  ghost function Got(pages: seq<nat>): set<nat> {
    Elements(pages) - {0}
  }

  ghost predicate Distinct(pages: seq<nat>) {
    forall i, j :: 0 <= i < j < |pages| && pages[i] != 0 ==> pages[i] != pages[j]
  }

  lemma GotCons(page: nat, rest: seq<nat>)
    ensures Got([page] + rest) == Got(rest) + (if page == 0 then {} else {page})
    ensures 0 in [page] + rest <==> page == 0 || 0 in rest
    ensures Distinct([page] + rest) <==> Distinct(rest) && page !in Got(rest)
    ensures 0 !in Got(rest)
  {
    var all := [page] + rest;
    assert Elements(all) == {page} + Elements(rest);
    if Distinct(all) {
      forall i, j | 0 <= i < j < |rest| && rest[i] != 0 ensures rest[i] != rest[j] {
        assert all[i + 1] == rest[i] && all[j + 1] == rest[j];
      }
      forall j | 0 <= j < |rest| && page != 0 ensures rest[j] != page {
        assert all[j + 1] == rest[j] && all[0] == page;
      }
    }
  }

  /** Freeing exactly the pages listed, zeros being skipped. */
  lemma {:induction false} FreeAllSplits(p: State, held: set<nat>, pool: set<nat>, pages: seq<nat>)
    requires Splits(p, held, pool) && Got(pages) <= held && Distinct(pages)
    ensures Splits(FreeAll(p, pages), held - Got(pages), pool)
    decreases |pages|
  {
    hide Splits, Got, Distinct, Free;
    if pages == [] {
      GotNothing();
      assert held - {} == held;
    } else {
      var page, rest := pages[0], pages[1..];
      assert pages == [page] + rest;
      GotCons(page, rest);
      if page == 0 {
        FreeZero(p);
        FreeAllSplits(p, held, pool, rest);
        assert Got(rest) + {} == Got(rest);
      } else {
        FreeSplits(p, held, pool, page);
        FreeAllSplits(Free(p, page), held - {page}, pool, rest);
        assert held - {page} - Got(rest) == held - (Got(rest) + {page});
      }
    }
  }

  lemma FreeZero(p: State)
    ensures Free(p, 0) == p
  {
  }

  lemma GotNothing()
    ensures Got([]) == {} && Distinct([])
  {
  }

  /** After taking `pages` on top of `held`: distinct pages nobody held. */
  ghost predicate Took(q: State, held: set<nat>, pool: set<nat>, pages: seq<nat>) {
    Splits(q, held + Got(pages), pool) && Got(pages) !! held && Distinct(pages)
  }

  lemma TookCons(q: State, held: set<nat>, pool: set<nat>, page: nat, rest: seq<nat>)
    requires page !in held && Took(q, if page == 0 then held else held + {page}, pool, rest)
    ensures Took(q, held, pool, [page] + rest)
  {
    hide Splits, Got, Distinct;
    GotCons(page, rest);
    if page == 0 {
      assert held + Got([page] + rest) == held + Got(rest);
    } else {
      assert held + Got([page] + rest) == held + {page} + Got(rest);
    }
  }

  /** The non-zero results of a run of allocations are distinct new holdings; a zero result
      means the stack ran out. */
  lemma {:induction false} AllocManySplits(p: State, held: set<nat>, pool: set<nat>, n: nat)
    requires Splits(p, held, pool)
    ensures Took(AllocMany(p, n).0, held, pool, AllocMany(p, n).1)
    ensures 0 in AllocMany(p, n).1 <==> |p.stack| < n
    ensures |AllocMany(p, n).0.stack| == if |p.stack| < n then 0 else |p.stack| - n
    decreases n
  {
    hide Splits, Took, Alloc;
    if n == 0 {
      TookNothing(p, held, pool);
    } else {
      var a := Alloc(p);
      AllocSplits(p, held, pool);
      AllocPops(p, held, pool);
      AllocManySplits(a.state, if a.page == 0 then held else held + {a.page}, pool, n - 1);
      TookCons(AllocMany(a.state, n - 1).0, held, pool, a.page, AllocMany(a.state, n - 1).1);
    }
  }

  /** Allocations pop the stack from its top. */
  lemma {:induction false} AllocManyPops(p: State, n: nat)
    requires p.ready && n <= |p.stack|
    ensures AllocMany(p, n).0 == p.(stack := p.stack[..|p.stack| - n])
    ensures forall k :: 0 <= k < n ==> AllocMany(p, n).1[k] == p.stack[|p.stack| - 1 - k]
    decreases n
  {
    if n > 0 {
      AllocManyPops(Alloc(p).state, n - 1);
    }
  }

  /** Frees push: the stack keeps what it had, and what is new was freed. */
  lemma {:induction false} FreeAllPushes(p: State, pages: seq<nat>)
    ensures p.stack <= FreeAll(p, pages).stack
    ensures forall j :: |p.stack| <= j < |FreeAll(p, pages).stack| ==> FreeAll(p, pages).stack[j] in pages
    decreases |pages|
  {
    if pages != [] {
      FreeAllPushes(Free(p, pages[0]), pages[1..]);
    }
  }

  lemma TookNothing(p: State, held: set<nat>, pool: set<nat>)
    requires Splits(p, held, pool)
    ensures Took(p, held, pool, [])
  {
    hide Splits;
    assert held + Got([]) == held;
  }

  lemma AllocPops(p: State, held: set<nat>, pool: set<nat>)
    requires Splits(p, held, pool)
    ensures |Alloc(p).state.stack| == |p.stack| - (if p.stack == [] then 0 else 1)
    ensures Alloc(p).page == 0 <==> p.stack == []
    ensures 0 !in held
  {
    if p.stack != [] {
      assert p.stack[|p.stack| - 1] in Elements(p.stack);
    }
  }

  /** One more page after the ones already taken. */
  lemma TookSnoc(q: State, r: State, held: set<nat>, pool: set<nat>, pages: seq<nat>, page: nat)
    requires Took(q, held, pool, pages) && 0 !in pages
    requires page != 0 && page !in held + Got(pages) && Splits(r, held + Got(pages) + {page}, pool)
    ensures Took(r, held, pool, pages + [page]) && 0 !in pages + [page]
  {
    hide Splits;
    GotSnoc(pages, page);
    assert held + Got(pages + [page]) == held + Got(pages) + {page};
  }

  lemma GotSnoc(pages: seq<nat>, page: nat)
    ensures Got(pages + [page]) == Got(pages) + (if page == 0 then {} else {page})
  {
    assert Elements(pages + [page]) == Elements(pages) + {page};
  }

  lemma DistinctCount(pages: seq<nat>)
    requires Distinct(pages) && 0 !in pages
    ensures |Got(pages)| == |pages|
  {
    assert Elements(pages) - {0} == Elements(pages);
    NoDupCardinality(pages);
  }
}
