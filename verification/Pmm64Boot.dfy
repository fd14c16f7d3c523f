/** Filling the x86_64 page allocator from the boot memory map. */
module Pmm64Boot {
  import opened MachineWords
  import opened Finite
  import opened Pmm64

  datatype Region = Region(base: nat, length: nat, available: bool)

  /** The word-sized fields of a boot memory region. */
  predicate Words(r: Region) { r.base < U64 && r.length < U64 }

  function AlignDown(x: nat): nat { x / PAGE * PAGE }

  /** Rounding up to a page in 64-bit arithmetic, wrapping included. */
  function AlignUp(x: nat): nat { AlignDown((x + PAGE - 1) % U64) }

  /** The page range a region contributes above `reserved`; an empty range when skipped. */
  function Range(r: Region, reserved: nat): (nat, nat) {
    var end := (r.base + r.length) % U64;
    if !r.available || end < r.base || end <= reserved then (0, 0)
    else (AlignUp(if r.base < reserved then reserved else r.base), AlignDown(end))
  }

  /** `track_page`. */
  function Track(p: State, page: nat): State {
    if p.tracked >= MAX_TRACKED then p
    else p.(stack := p.stack + [page], tracked := p.tracked + 1,
            low := if p.low == 0 || page < p.low then page else p.low,
            high := if page > p.high then page else p.high)
  }

  /** `track_range`. */
  function TrackRange(p: State, start: nat, end: nat): State
    decreases end - start
  {
    if start + PAGE > end then p else TrackRange(Track(p, start), start + PAGE, end)
  }

  function TrackRegions(p: State, regions: seq<Region>, reserved: nat): State
    decreases |regions|
  {
    if regions == [] then p
    else
      var g := Range(regions[0], reserved);
      TrackRegions(TrackRange(p, g.0, g.1), regions[1..], reserved)
  }

  const BLANK: State := State(false, [], 0, 0, 0)

  /** `x86_64_pmm_init`. */
  function Init(regions: seq<Region>, kernelEnd: nat): State {
    TrackRegions(BLANK, regions, AlignUp(kernelEnd)).(ready := true)
  }

  // ----- the same as lists of pages

  function RangePages(start: nat, end: nat): seq<nat>
    decreases end - start
  {
    if start + PAGE > end then [] else [start] + RangePages(start + PAGE, end)
  }

  function AllPages(regions: seq<Region>, reserved: nat): seq<nat>
    decreases |regions|
  {
    if regions == [] then []
    else RangePages(Range(regions[0], reserved).0, Range(regions[0], reserved).1) + AllPages(regions[1..], reserved)
  }

  function First(pages: seq<nat>, n: nat): seq<nat> { if |pages| <= n then pages else pages[..n] }

  /** What tracking has built: the pages are on the stack, counted, and within the bounds. */
  ghost predicate Tracks(p: State) {
    && p.tracked == |p.stack| <= MAX_TRACKED
    && (0 !in p.stack ==> forall f :: f in p.stack ==> p.low <= f <= p.high)
  }

  lemma TrackKeeps(p: State, page: nat)
    requires Tracks(p) && (p.stack != [] && 0 !in p.stack ==> p.low != 0)
    ensures Tracks(Track(p, page))
      && (Track(p, page).stack != [] && 0 !in Track(p, page).stack ==> Track(p, page).low != 0)
    ensures Track(p, page).stack == First(p.stack + [page], MAX_TRACKED) && Track(p, page).ready == p.ready
  {
    var q := Track(p, page);
    if p.tracked < MAX_TRACKED {
      assert page in q.stack;
      assert forall f :: f in p.stack ==> f in q.stack;
    }
  }

  lemma FirstTwice(a: seq<nat>, b: seq<nat>, n: nat)
    ensures First(First(a, n) + b, n) == First(a + b, n)
  {
    if |a| > n {
      assert First(a + b, n) == a[..n];
    }
  }

  ghost predicate Filling(p: State, pages: seq<nat>) {
    && Tracks(p) && (p.stack != [] && 0 !in p.stack ==> p.low != 0)
    && p.stack == First(pages, MAX_TRACKED)
  }

  lemma TrackFilling(p: State, page: nat, pages: seq<nat>)
    requires Filling(p, pages)
    ensures Filling(Track(p, page), pages + [page])
  {
    hide Tracks, Track;
    TrackKeeps(p, page);
    FirstTwice(pages, [page], MAX_TRACKED);
  }

  lemma {:induction false} TrackRangePages(p: State, start: nat, end: nat, pages: seq<nat>)
    requires Filling(p, pages)
    ensures Filling(TrackRange(p, start, end), pages + RangePages(start, end))
    decreases end - start
  {
    hide Filling, Track;
    if start + PAGE > end {
      assert pages + [] == pages;
    } else {
      TrackFilling(p, start, pages);
      TrackRangePages(Track(p, start), start + PAGE, end, pages + [start]);
      assert pages + [start] + RangePages(start + PAGE, end) == pages + RangePages(start, end);
    }
  }

  lemma {:induction false} TrackRegionsPages(p: State, regions: seq<Region>, reserved: nat, pages: seq<nat>)
    requires Filling(p, pages)
    ensures Filling(TrackRegions(p, regions, reserved), pages + AllPages(regions, reserved))
    decreases |regions|
  {
    hide Filling, TrackRange, RangePages, Range;
    if regions == [] {
      assert pages + [] == pages;
    } else {
      var g := Range(regions[0], reserved);
      TrackRangePages(p, g.0, g.1, pages);
      TrackRegionsPages(TrackRange(p, g.0, g.1), regions[1..], reserved, pages + RangePages(g.0, g.1));
      assert pages + RangePages(g.0, g.1) + AllPages(regions[1..], reserved) == pages + AllPages(regions, reserved);
    }
  }

  // ----- which pages those are

  predicate InRange(page: nat, g: (nat, nat)) { g.0 <= page && page + PAGE <= g.1 && page % PAGE == 0 }

  lemma RangeAligned(r: Region, reserved: nat)
    ensures Range(r, reserved).0 % PAGE == 0 && Range(r, reserved).1 % PAGE == 0
  {
  }

  lemma {:induction false} RangePagesExactly(start: nat, end: nat)
    requires start % PAGE == 0
    ensures forall f :: f in RangePages(start, end) <==> InRange(f, (start, end))
    ensures NoDup(RangePages(start, end))
    decreases end - start
  {
    if start + PAGE <= end {
      RangePagesExactly(start + PAGE, end);
      forall f ensures InRange(f, (start, end)) <==> f == start || InRange(f, (start + PAGE, end)) {
        if InRange(f, (start, end)) && f != start {
          NextPage(start, f);
        }
      }
      var rest := RangePages(start + PAGE, end);
      assert start !in rest;
      forall i, j | 0 <= i < j < |[start] + rest| ensures ([start] + rest)[i] != ([start] + rest)[j] {
        assert ([start] + rest)[j] == rest[j - 1];
      }
    }
  }

  lemma {:induction false} RangePagesAt(start: nat, end: nat)
    ensures |RangePages(start, end)| == if end < start then 0 else (end - start) / PAGE
    ensures forall j :: 0 <= j < |RangePages(start, end)| ==> RangePages(start, end)[j] == start + j * PAGE
    decreases end - start
  {
    if start + PAGE <= end {
      RangePagesAt(start + PAGE, end);
      assert (end - start) / PAGE == (end - (start + PAGE)) / PAGE + 1;
    }
  }

  lemma NextPage(a: nat, b: nat)
    requires a % PAGE == 0 && b % PAGE == 0 && a < b
    ensures a + PAGE <= b
  {
  }

  /** A page on offer lies in the range of some region. */
  lemma {:induction false} AllPagesInRange(regions: seq<Region>, reserved: nat, f: nat)
    ensures f in AllPages(regions, reserved) <==>
      exists i :: 0 <= i < |regions| && InRange(f, Range(regions[i], reserved))
    decreases |regions|
  {
    hide Range, InRange, RangePages;
    if regions != [] {
      var g := Range(regions[0], reserved);
      RangeAligned(regions[0], reserved);
      RangePagesExactly(g.0, g.1);
      AllPagesInRange(regions[1..], reserved, f);
      if i :| 0 <= i < |regions| && InRange(f, Range(regions[i], reserved)) {
        if i > 0 {
          assert regions[1..][i - 1] == regions[i];
        }
      }
      if f in AllPages(regions[1..], reserved) {
        var i :| 0 <= i < |regions[1..]| && InRange(f, Range(regions[1..][i], reserved));
        assert regions[i + 1] == regions[1..][i];
      }
    }
  }

  /** No page belongs to two regions. */
  ghost predicate RangesApart(regions: seq<Region>, reserved: nat) {
    forall i, j, f :: 0 <= i < j < |regions| && InRange(f, Range(regions[i], reserved)) ==>
      !InRange(f, Range(regions[j], reserved))
  }

  lemma NoDupAppend(a: seq<nat>, b: seq<nat>)
    requires NoDup(a)
    ensures NoDup(a + b) <==> NoDup(b) && forall f :: f in a ==> f !in b
  {
    if NoDup(a + b) {
      forall i, j | 0 <= i < j < |b| ensures b[i] != b[j] {
        assert (a + b)[|a| + i] == b[i] && (a + b)[|a| + j] == b[j];
      }
      forall f | f in a ensures f !in b {
        var i :| 0 <= i < |a| && a[i] == f;
        assert (a + b)[i] == f;
        forall j | 0 <= j < |b| ensures b[j] != f {
          assert (a + b)[|a| + j] == b[j];
        }
      }
    }
    if NoDup(b) && forall f :: f in a ==> f !in b {
      forall i, j | 0 <= i < j < |a + b| ensures (a + b)[i] != (a + b)[j] {
        if i < |a| && j >= |a| {
          assert (a + b)[i] in a && (a + b)[j] in b;
        }
      }
    }
  }

  /** The pages on offer are all different exactly when no two regions share one. */
  lemma {:induction false} AllPagesDistinct(regions: seq<Region>, reserved: nat)
    ensures NoDup(AllPages(regions, reserved)) <==> RangesApart(regions, reserved)
    decreases |regions|
  {
    hide Range, InRange, RangePages, NoDup;
    if regions == [] {
      assert NoDup<nat>([]) by { EmptyNoDup(); }
    } else {
      var g, rest := Range(regions[0], reserved), regions[1..];
      RangeAligned(regions[0], reserved);
      RangePagesExactly(g.0, g.1);
      AllPagesDistinct(rest, reserved);
      NoDupAppend(RangePages(g.0, g.1), AllPages(rest, reserved));
      forall f
        ensures f in AllPages(rest, reserved) <==> exists i :: 0 <= i < |rest| && InRange(f, Range(rest[i], reserved))
      {
        AllPagesInRange(rest, reserved, f);
      }
      ApartCons(regions, reserved);
    }
  }

  lemma EmptyNoDup()
    ensures NoDup<nat>([])
  {
  }

  lemma ApartCons(regions: seq<Region>, reserved: nat)
    requires regions != []
    ensures RangesApart(regions, reserved) <==>
      RangesApart(regions[1..], reserved) &&
      forall f, j :: InRange(f, Range(regions[0], reserved)) && 0 <= j < |regions[1..]| ==>
        !InRange(f, Range(regions[1..][j], reserved))
  {
    hide Range, InRange;
    var rest := regions[1..];
    assert forall j :: 0 <= j < |rest| ==> rest[j] == regions[j + 1];
    if RangesApart(regions, reserved) {
      forall i, j, f | 0 <= i < j < |rest| && InRange(f, Range(rest[i], reserved))
        ensures !InRange(f, Range(rest[j], reserved))
      {
        assert rest[i] == regions[i + 1];
      }
    }
    if RangesApart(rest, reserved) && forall f, j :: InRange(f, Range(regions[0], reserved)) && 0 <= j < |rest| ==>
      !InRange(f, Range(rest[j], reserved)) {
      forall i, j, f | 0 <= i < j < |regions| && InRange(f, Range(regions[i], reserved))
        ensures !InRange(f, Range(regions[j], reserved))
      {
        assert regions[j] == rest[j - 1];
        if i > 0 {
          assert regions[i] == rest[i - 1];
        }
      }
    }
  }

  // ----- the allocator after boot

  /** A region whose start rounds up past the top of the address space. */
  predicate RoundsOver(r: Region, reserved: nat) {
    var end := (r.base + r.length) % U64;
    && r.available && end >= r.base && end > reserved
    && (if r.base < reserved then reserved else r.base) > U64 - PAGE
  }

  /** Page `f` is a whole page of the region, above the reserved end: the region is available,
      does not reach past the last address, and ends above the reserved end. */
  predicate Offers(r: Region, reserved: nat, f: nat) {
    && r.available && r.base + r.length < U64 && reserved < r.base + r.length
    && f % PAGE == 0 && f + PAGE <= r.base + r.length
    && (RoundsOver(r, reserved) || (r.base <= f && reserved <= f))
  }

  lemma OffersExactly(r: Region, reserved: nat, f: nat)
    requires Words(r) && reserved < U64
    ensures InRange(f, Range(r, reserved)) <==> Offers(r, reserved, f)
  {
    var end, start := (r.base + r.length) % U64, if r.base < reserved then reserved else r.base;
    assert end >= r.base <==> r.base + r.length < U64;
    if r.available && r.base + r.length < U64 && reserved < end && f % PAGE == 0 {
      EndRounded(end, f);
      if start > U64 - PAGE {
        assert AlignUp(start) == 0;
      } else {
        StartRounded(start, f);
      }
    }
  }

  lemma EndRounded(end: nat, f: nat)
    requires f % PAGE == 0
    ensures f + PAGE <= AlignDown(end) <==> f + PAGE <= end
  {
  }

  lemma StartRounded(start: nat, f: nat)
    requires f % PAGE == 0 && start <= U64 - PAGE
    ensures AlignUp(start) <= f <==> start <= f
  {
  }

  /** The pages on offer are exactly the regions' whole pages above the reserved end, unless a
      region starts so high that rounding its start up wraps to zero. */
  lemma AllPagesExactly(regions: seq<Region>, reserved: nat, f: nat)
    requires reserved < U64 && forall i :: 0 <= i < |regions| ==> Words(regions[i])
    ensures f in AllPages(regions, reserved) <==> exists i :: 0 <= i < |regions| && Offers(regions[i], reserved, f)
  {
    hide Range, InRange, AllPages, Offers, Words;
    AllPagesInRange(regions, reserved, f);
    forall i | 0 <= i < |regions| ensures InRange(f, Range(regions[i], reserved)) <==> Offers(regions[i], reserved, f) {
      OffersExactly(regions[i], reserved, f);
    }
  }

  /** Every page on offer lies at or above the reserved end exactly when no region's start
      rounds over. */
  lemma OffersAboveReserved(r: Region, reserved: nat)
    requires Words(r) && 0 < reserved <= U64 - PAGE && reserved % PAGE == 0
    ensures (forall f :: InRange(f, Range(r, reserved)) ==> reserved <= f) <==> !RoundsOver(r, reserved)
  {
    var end := (r.base + r.length) % U64;
    var start := if r.base < reserved then reserved else r.base;
    if RoundsOver(r, reserved) {
      assert AlignUp(start) == 0;
      assert AlignDown(end) == U64 - PAGE;
      assert InRange(0, Range(r, reserved));
    } else if r.available && end >= r.base && end > reserved {
      assert AlignUp(start) >= start;
    }
  }

  /** The allocator boot hands over: ready, every page once, nothing held. */
  lemma InitSplits(regions: seq<Region>, kernelEnd: nat)
    requires RangesApart(regions, AlignUp(kernelEnd))
    requires forall i :: 0 <= i < |regions| ==> Words(regions[i]) && !RoundsOver(regions[i], AlignUp(kernelEnd))
    requires 0 < kernelEnd <= U64 - PAGE
    ensures var p := Init(regions, kernelEnd);
      && p.stack == First(AllPages(regions, AlignUp(kernelEnd)), MAX_TRACKED)
      && Splits(p, {}, Elements(p.stack)) && (forall f :: f in p.stack ==> kernelEnd <= f)
  {
    hide Range, InRange, RoundsOver, AllPages, TrackRegions, RangesApart, AlignUp;
    var reserved := AlignUp(kernelEnd);
    ReservedFacts(kernelEnd);
    var p := Init(regions, kernelEnd);
    assert Filling(BLANK, []);
    TrackRegionsPages(BLANK, regions, reserved, []);
    assert [] + AllPages(regions, reserved) == AllPages(regions, reserved);
    AllPagesDistinct(regions, reserved);
    forall f | f in p.stack ensures reserved <= f && f % PAGE == 0 {
      assert f in AllPages(regions, reserved);
      AllPagesInRange(regions, reserved, f);
      var i :| 0 <= i < |regions| && InRange(f, Range(regions[i], reserved));
      assert Words(regions[i]) && !RoundsOver(regions[i], reserved);
      OffersAboveReserved(regions[i], reserved);
      assert f % PAGE == 0 by { InRangeAligned(f, Range(regions[i], reserved)); }
    }
    NoDupCardinality(p.stack);
  }

  // ----- pages offered by two regions

  /** Where page `f` of region `j` stands among the pages on offer. */
  function Place(regions: seq<Region>, reserved: nat, j: nat, f: nat): nat
    requires j < |regions| && InRange(f, Range(regions[j], reserved))
  {
    |AllPages(regions[..j], reserved)| + (f - Range(regions[j], reserved).0) / PAGE
  }

  lemma {:induction false} AllPagesAppend(a: seq<Region>, b: seq<Region>, reserved: nat)
    ensures AllPages(a + b, reserved) == AllPages(a, reserved) + AllPages(b, reserved)
    decreases |a|
  {
    hide Range, RangePages;
    if a == [] {
      assert a + b == b;
    } else {
      assert (a + b)[1..] == a[1..] + b;
      AllPagesAppend(a[1..], b, reserved);
    }
  }

  lemma AllPagesAround(regions: seq<Region>, reserved: nat, j: nat)
    requires j < |regions|
    ensures AllPages(regions, reserved) == AllPages(regions[..j], reserved)
      + RangePages(Range(regions[j], reserved).0, Range(regions[j], reserved).1) + AllPages(regions[j + 1..], reserved)
    ensures AllPages(regions[..j + 1], reserved) == AllPages(regions[..j], reserved)
      + RangePages(Range(regions[j], reserved).0, Range(regions[j], reserved).1)
  {
    hide Range, RangePages;
    var r := regions[j];
    assert [r][1..] == [];
    assert AllPages([r], reserved) == RangePages(Range(r, reserved).0, Range(r, reserved).1);
    assert regions[..j + 1] == regions[..j] + [r];
    AllPagesAppend(regions[..j], [r], reserved);
    assert regions == regions[..j + 1] + regions[j + 1..];
    AllPagesAppend(regions[..j + 1], regions[j + 1..], reserved);
  }

  lemma IndexInRange(start: nat, end: nat, f: nat)
    requires InRange(f, (start, end)) && start % PAGE == 0
    ensures (f - start) / PAGE < |RangePages(start, end)| && RangePages(start, end)[(f - start) / PAGE] == f
  {
    RangePagesAt(start, end);
  }

  /** The page is there, within its region's stretch. */
  lemma PlaceHolds(regions: seq<Region>, reserved: nat, j: nat, f: nat)
    requires j < |regions| && InRange(f, Range(regions[j], reserved))
    ensures Place(regions, reserved, j, f) < |AllPages(regions[..j + 1], reserved)| <= |AllPages(regions, reserved)|
    ensures AllPages(regions, reserved)[Place(regions, reserved, j, f)] == f
  {
    hide Range, RangePages;
    var g, before := Range(regions[j], reserved), AllPages(regions[..j], reserved);
    AllPagesAround(regions, reserved, j);
    RangeAligned(regions[j], reserved);
    IndexInRange(g.0, g.1, f);
    InMiddle(before, RangePages(g.0, g.1), AllPages(regions[j + 1..], reserved), (f - g.0) / PAGE);
  }

  lemma InMiddle(a: seq<nat>, b: seq<nat>, c: seq<nat>, k: nat)
    requires k < |b|
    ensures (a + b + c)[|a| + k] == b[k]
  {
  }

  lemma RepeatBeyond(s: seq<nat>, a: nat, b: nat)
    requires NoDup(s) && a < b && (b < |s| ==> s[a] == s[b])
    ensures b >= |s|
  {
  }

  /** Every place is that of a page of some region. */
  lemma {:induction false} PlaceFound(regions: seq<Region>, reserved: nat, k: nat) returns (j: nat)
    requires k < |AllPages(regions, reserved)|
    ensures j < |regions| && InRange(AllPages(regions, reserved)[k], Range(regions[j], reserved))
    ensures k == Place(regions, reserved, j, AllPages(regions, reserved)[k])
    decreases |regions|
  {
    hide Range, RangePages;
    var n := |regions| - 1;
    AllPagesAround(regions, reserved, n);
    assert AllPages(regions[n + 1..], reserved) == [];
    var front := AllPages(regions[..n], reserved);
    if k < |front| {
      j := PlaceFound(regions[..n], reserved, k);
      assert regions[..n][..j] == regions[..j];
    } else {
      j := n;
      RangeAligned(regions[n], reserved);
      AtIndex(Range(regions[n], reserved).0, Range(regions[n], reserved).1, k - |front|);
    }
  }

  lemma AtIndex(start: nat, end: nat, i: nat)
    requires start % PAGE == 0 && i < |RangePages(start, end)|
    ensures InRange(RangePages(start, end)[i], (start, end)) && (RangePages(start, end)[i] - start) / PAGE == i
  {
    RangePagesAt(start, end);
    RangePagesExactly(start, end);
    assert RangePages(start, end)[i] in RangePages(start, end);
  }

  lemma {:induction false} EarlierShorter(regions: seq<Region>, reserved: nat, i: nat, j: nat)
    requires i <= j <= |regions|
    ensures |AllPages(regions[..i], reserved)| <= |AllPages(regions[..j], reserved)|
    decreases j - i
  {
    hide Range, RangePages;
    if i < j {
      EarlierShorter(regions, reserved, i, j - 1);
      AllPagesAround(regions, reserved, j - 1);
    }
  }

  predicate Shared(r: Region, q: Region, reserved: nat, f: nat) {
    InRange(f, Range(r, reserved)) && InRange(f, Range(q, reserved))
  }

  /** A page offered by two regions is tracked only once: its second place is past the limit. */
  ghost predicate SharedDropped(regions: seq<Region>, reserved: nat) {
    forall i, j, f :: 0 <= i < j < |regions| && Shared(regions[i], regions[j], reserved, f) ==>
      Place(regions, reserved, j, f) >= MAX_TRACKED
  }

  /** For every map, boot leaves a duplicate-free stack exactly when every page two regions share
      comes too late, the second time, to be tracked; otherwise one page is handed out twice. */
  lemma InitDistinctExactly(regions: seq<Region>, kernelEnd: nat)
    ensures NoDup(Init(regions, kernelEnd).stack) <==> SharedDropped(regions, AlignUp(kernelEnd))
  {
    hide Range, InRange, AllPages, TrackRegions, AlignUp, Place;
    var reserved := AlignUp(kernelEnd);
    assert Filling(BLANK, []);
    TrackRegionsPages(BLANK, regions, reserved, []);
    assert [] + AllPages(regions, reserved) == AllPages(regions, reserved);
    var all, stack := AllPages(regions, reserved), Init(regions, kernelEnd).stack;
    if NoDup(stack) {
      forall i, j, f | 0 <= i < j < |regions| && Shared(regions[i], regions[j], reserved, f)
        ensures Place(regions, reserved, j, f) >= MAX_TRACKED
      {
        TwoPlaces(regions, reserved, i, j, f);
        var a, b := Place(regions, reserved, i, f), Place(regions, reserved, j, f);
        RepeatBeyond(stack, a, b);
      }
    }
    if SharedDropped(regions, reserved) {
      forall a, b | 0 <= a < b < |stack| ensures stack[a] != stack[b] {
        var i := PlaceFound(regions, reserved, a);
        var j := PlaceFound(regions, reserved, b);
        if stack[a] == stack[b] {
          assert i != j;
          if j < i {
            TwoPlaces(regions, reserved, j, i, stack[a]);
          }
        }
      }
    }
  }

  /** The two places of a shared page. */
  lemma TwoPlaces(regions: seq<Region>, reserved: nat, i: nat, j: nat, f: nat)
    requires i < j < |regions| && InRange(f, Range(regions[i], reserved)) && InRange(f, Range(regions[j], reserved))
    ensures Place(regions, reserved, i, f) < Place(regions, reserved, j, f) < |AllPages(regions, reserved)|
    ensures AllPages(regions, reserved)[Place(regions, reserved, i, f)] == f ==
      AllPages(regions, reserved)[Place(regions, reserved, j, f)]
  {
    hide Range, AllPages;
    PlaceHolds(regions, reserved, i, f);
    PlaceHolds(regions, reserved, j, f);
    EarlierShorter(regions, reserved, i + 1, j);
  }

  lemma InRangeAligned(f: nat, g: (nat, nat))
    requires InRange(f, g)
    ensures f % PAGE == 0
  {
  }

  lemma ReservedFacts(kernelEnd: nat)
    requires 0 < kernelEnd <= U64 - PAGE
    ensures AlignUp(kernelEnd) % PAGE == 0 && kernelEnd <= AlignUp(kernelEnd) <= U64 - PAGE && AlignUp(kernelEnd) > 0
  {
  }
}
