/** Finite-set facts shared by the allocators: duplicate-free stacks of pages and the
    set of page frames of an address range. */
module Finite {
  import opened MachineWords

  ghost predicate NoDup<T>(s: seq<T>) {
    forall i, j :: 0 <= i < j < |s| ==> s[i] != s[j]
  }

  ghost function Elements<T>(s: seq<T>): set<T> {
    set x | x in s
  }

  /** The page-aligned addresses of the `n` pages that start at `lo`. */
  ghost function Pages(lo: nat, n: nat): set<nat> {
    set k | 0 <= k < n :: lo + k * PAGE
  }

  lemma {:induction false} NoDupCardinality<T>(s: seq<T>)
    requires NoDup(s)
    ensures |Elements(s)| == |s|
  {
    if |s| == 0 {
      assert Elements(s) == {};
    } else {
      var front, last := s[..|s| - 1], s[|s| - 1];
      NoDupCardinality(front);
      assert Elements(s) == Elements(front) + {last};
    }
  }

  /** A list with as many elements as places repeats nothing. */
  lemma {:induction false} FullNoDup<T>(s: seq<T>)
    requires |Elements(s)| >= |s|
    ensures NoDup(s)
  {
    if |s| > 0 {
      var front, last := s[..|s| - 1], s[|s| - 1];
      assert Elements(s) == Elements(front) + {last};
      AddOne(Elements(front), last);
      ElementsBound(front);
      FullNoDup(front);
    }
  }

  lemma AddOne<T>(a: set<T>, x: T)
    ensures |a + {x}| == |a| + (if x in a then 0 else 1)
  {
    if x in a {
      assert a + {x} == a;
    }
  }

  lemma {:induction false} ElementsBound<T>(s: seq<T>)
    ensures |Elements(s)| <= |s|
  {
    if |s| > 0 {
      var front, last := s[..|s| - 1], s[|s| - 1];
      ElementsBound(front);
      assert Elements(s) == Elements(front) + {last};
    } else {
      assert Elements(s) == {};
    }
  }

  lemma {:induction false} PagesCardinality(lo: nat, n: nat)
    ensures |Pages(lo, n)| == n
  {
    if n == 0 {
      assert Pages(lo, n) == {};
    } else {
      PagesCardinality(lo, n - 1);
      assert Pages(lo, n) == Pages(lo, n - 1) + {lo + (n - 1) * PAGE};
    }
  }

  lemma SubsetCardinality<T>(a: set<T>, b: set<T>)
    requires a <= b
    ensures |b - a| == |b| - |a|
    ensures |a| <= |b|
  {
    assert b == a + (b - a);
  }
}
