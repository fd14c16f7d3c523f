/** The x86_64 page allocator as it runs: `page_stack` and its counters, updated in place. */
module PageStack64 {
  import opened MachineWords
  import opened Pmm64
  import opened Pmm64Boot

  class PageStack {
    var ready: bool
    const pages: array<nat>
    var count: nat
    var tracked: nat
    var low: nat
    var high: nat

    ghost predicate Valid() reads this {
      pages.Length == MAX_TRACKED && count <= tracked <= MAX_TRACKED
    }

    ghost function Snapshot(): State
      requires Valid()
      reads this, pages
    {
      State(ready, pages[..count], tracked, low, high)
    }

    /** `x86_64_pmm_init`. */
    constructor (regions: seq<Region>, kernelEnd: nat)
      ensures Valid() && fresh(pages) && Snapshot() == Init(regions, kernelEnd)
    {
      ready, count, tracked, low, high := false, 0, 0, 0, 0;
      pages := new nat[MAX_TRACKED];
      new;
      var reserved := AlignUp(kernelEnd);
      assert Snapshot() == BLANK;
      for i := 0 to |regions|
        invariant Valid() && count == tracked
        invariant TrackRegions(Snapshot(), regions[i..], reserved) == TrackRegions(BLANK, regions, reserved)
      {
        assert regions[i..][1..] == regions[i + 1..];
        var g := Range(regions[i], reserved);
        TrackPages(g.0, g.1);
      }
      ready := true;
    }

    /** `track_page`. */
    method TrackPage(page: nat)
      requires Valid() && count == tracked
      modifies this, pages
      ensures Valid() && count == tracked && Snapshot() == Track(old(Snapshot()), page)
    {
      if tracked >= MAX_TRACKED {
        return;
      }
      pages[count] := page;
      count := count + 1;
      tracked := tracked + 1;
      if low == 0 || page < low {
        low := page;
      }
      if page > high {
        high := page;
      }
      assert pages[..count] == old(pages[..count]) + [page];
    }

    /** `track_range`. */
    method TrackPages(start: nat, end: nat)
      requires Valid() && count == tracked
      modifies this, pages
      ensures Valid() && count == tracked && Snapshot() == TrackRange(old(Snapshot()), start, end)
    {
      if end <= start || end - start < PAGE {
        return;
      }
      var page := start;
      while page <= end - PAGE
        invariant Valid() && count == tracked
        invariant TrackRange(Snapshot(), page, end) == TrackRange(old(Snapshot()), start, end)
        decreases end - page
      {
        TrackPage(page);
        page := page + PAGE;
      }
    }

    /** `x86_64_pmm_alloc_page`. */
    method AllocPage() returns (page: nat)
      requires Valid()
      modifies this`count
      ensures Valid() && Outcome(Snapshot(), page) == Alloc(old(Snapshot()))
    {
      if !ready || count == 0 {
        return 0;
      }
      count := count - 1;
      assert pages[..count] == old(pages[..count])[..count];
      return pages[count];
    }

    /** `page_is_already_free`. */
    method AlreadyFree(page: nat) returns (found: bool)
      requires Valid()
      ensures found <==> page in pages[..count]
    {
      for i := 0 to count
        invariant page !in pages[..i]
      {
        if pages[i] == page {
          return true;
        }
      }
      return false;
    }

    /** `x86_64_pmm_free_page`. */
    method FreePage(page: nat) returns (ok: bool)
      requires Valid()
      modifies this`count, pages
      ensures Valid() && ok == Accepts(old(Snapshot()), page) && Snapshot() == Free(old(Snapshot()), page)
    {
      if !ready || page == 0 || page % PAGE != 0 || page < low || page > high {
        return false;
      }
      var found := AlreadyFree(page);
      if found || count >= tracked {
        return false;
      }
      pages[count] := page;
      count := count + 1;
      assert pages[..count] == old(pages[..count]) + [page];
      return true;
    }
  }
}
