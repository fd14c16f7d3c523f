/** The kernel heap's block list as a value: first fit, splitting and coalescing. Every
    walk of the list stops after `LIMIT` blocks, as the C loops do. */
module HeapBlocks {
  import opened MachineWords
  import opened Wrappers

  const HEADER: nat := 16
  const MIN_SPLIT: nat := 16
  const LIMIT: nat := 4096

  datatype Block = Block(addr: nat, size: nat, used: bool) {
    function Payload(): nat { addr + HEADER }
    function End(): nat { addr + HEADER + size }
  }

  /** The blocks lie end to end over [lo, hi), with non-empty payloads of 8-byte units. */
  ghost predicate Tiles(bs: seq<Block>, lo: nat, hi: nat) {
    && (if bs == [] then lo == hi else bs[0].addr == lo && bs[|bs| - 1].End() == hi)
    && (forall i :: 0 <= i < |bs| - 1 ==> bs[i].End() == bs[i + 1].addr)
    && (forall i :: 0 <= i < |bs| ==> SizeOk(bs[i]))
  }

  ghost predicate SizeOk(b: Block) {
    b.size > 0 && b.size % 8 == 0 && b.addr % 8 == 0
  }

  /** No two neighbours are both free, as far as the bounded walk looks. */
  ghost predicate Canonical(bs: seq<Block>) {
    forall i :: 0 <= i < LIMIT && i + 1 < |bs| ==> bs[i].used || bs[i + 1].used
  }

  ghost function Live(bs: seq<Block>): set<Block> {
    set b | b in bs && b.used
  }

  predicate Fits(b: Block, request: nat) {
    !b.used && b.size >= request
  }

  /** The first free block of at least `request` bytes among those the walk visits. */
  function FirstFit(bs: seq<Block>, request: nat, i: nat := 0): (r: Option<nat>)
    requires i <= |bs|
    ensures r.Some? ==> i <= r.value < |bs| && r.value < LIMIT && Fits(bs[r.value], request)
    ensures r.Some? ==> forall j :: i <= j < r.value ==> !Fits(bs[j], request)
    ensures r.None? ==> forall j :: i <= j < |bs| && j < LIMIT ==> !Fits(bs[j], request)
    decreases |bs| - i
  {
    if i >= |bs| || i >= LIMIT then None
    else if Fits(bs[i], request) then Some(i)
    else FirstFit(bs, request, i + 1)
  }

  /** `heap_split_block` followed by marking the block used. */
  function Take(bs: seq<Block>, i: nat, request: nat): seq<Block>
    requires i < |bs|
  {
    var b := bs[i];
    if b.size <= request + HEADER + MIN_SPLIT then bs[i := b.(used := true)]
    else
      bs[..i] + [Block(b.addr, request, true), Block(b.addr + HEADER + request, b.size - request - HEADER, false)]
      + bs[i + 1..]
  }

  predicate Mergeable(a: Block, b: Block) {
    !a.used && !b.used && a.End() == b.addr
  }

  function Join(a: Block, b: Block): Block {
    Block(a.addr, a.size + HEADER + b.size, false)
  }

  /** `heap_merge_free_blocks` from block `i` on: a merged block is looked at again. */
  function MergeFrom(bs: seq<Block>, i: nat): seq<Block>
    decreases |bs| - i
  {
    if i >= LIMIT || i + 1 >= |bs| then bs
    else if Mergeable(bs[i], bs[i + 1]) then
      MergeFrom(bs[..i] + [Join(bs[i], bs[i + 1])] + bs[i + 2..], i)
    else MergeFrom(bs, i + 1)
  }

  /** The index of the visited block whose payload starts at `p`, used or free. */
  function FindPayload(bs: seq<Block>, p: nat, i: nat := 0): (r: Option<nat>)
    requires i <= |bs|
    ensures r.Some? ==> i <= r.value < |bs| && r.value < LIMIT && bs[r.value].Payload() == p
    ensures r.None? ==> forall j :: i <= j < |bs| && j < LIMIT ==> bs[j].Payload() != p
    decreases |bs| - i
  {
    if i >= |bs| || i >= LIMIT then None
    else if bs[i].Payload() == p then Some(i)
    else FindPayload(bs, p, i + 1)
  }

  /** `kfree` once the block has been found. */
  function Release(bs: seq<Block>, i: nat): seq<Block>
    requires i < |bs|
  {
    MergeFrom(bs[i := bs[i].(used := false)], 0)
  }

  // ----- order and disjointness

  lemma {:induction false} TilesApart(bs: seq<Block>, lo: nat, hi: nat, i: nat, j: nat)
    requires Tiles(bs, lo, hi) && i < j < |bs|
    ensures bs[i].End() <= bs[j].addr
    decreases j
  {
    if j > i + 1 {
      TilesApart(bs, lo, hi, i, j - 1);
      assert bs[j - 1].End() == bs[j].addr;
    }
  }

  /** Blocks stay inside the tiled range and never overlap. */
  lemma TilesOrdered(bs: seq<Block>, lo: nat, hi: nat)
    requires Tiles(bs, lo, hi)
    ensures lo <= hi
    ensures forall i, j :: 0 <= i < j < |bs| ==> bs[i].End() <= bs[j].addr
    ensures forall i :: 0 <= i < |bs| ==> lo <= bs[i].addr && bs[i].End() <= hi
  {
    forall i, j | 0 <= i < j < |bs| ensures bs[i].End() <= bs[j].addr {
      TilesApart(bs, lo, hi, i, j);
    }
  }

  /** A payload address identifies its block. */
  lemma PayloadUnique(bs: seq<Block>, lo: nat, hi: nat, i: nat, j: nat)
    requires Tiles(bs, lo, hi) && i < |bs| && j < |bs| && bs[i].Payload() == bs[j].Payload()
    ensures i == j
  {
    TilesOrdered(bs, lo, hi);
  }

  /** Two live blocks never share a byte of payload. */
  lemma LiveDisjoint(bs: seq<Block>, lo: nat, hi: nat, b: Block, c: Block)
    requires Tiles(bs, lo, hi) && b in Live(bs) && c in Live(bs) && b != c
    ensures b.End() <= c.addr || c.End() <= b.addr
  {
    TilesOrdered(bs, lo, hi);
    var i :| 0 <= i < |bs| && bs[i] == b;
    var j :| 0 <= j < |bs| && bs[j] == c;
    assert i < j || j < i;
  }

  // ----- cutting and joining lists

  lemma TilesConcat(xs: seq<Block>, ys: seq<Block>, lo: nat, mid: nat, hi: nat)
    requires Tiles(xs, lo, mid) && Tiles(ys, mid, hi)
    ensures Tiles(xs + ys, lo, hi)
  {
    if xs == [] {
      assert xs + ys == ys;
    } else if ys == [] {
      assert xs + ys == xs;
    }
  }

  function Cut(bs: seq<Block>, i: nat, hi: nat): nat
    requires i <= |bs|
  {
    if i < |bs| then bs[i].addr else hi
  }

  lemma TilesCut(bs: seq<Block>, lo: nat, hi: nat, i: nat)
    requires Tiles(bs, lo, hi) && i <= |bs|
    ensures Tiles(bs[..i], lo, Cut(bs, i, hi)) && Tiles(bs[i..], Cut(bs, i, hi), hi)
  {
  }

  lemma TileAt(bs: seq<Block>, lo: nat, hi: nat, i: nat)
    requires Tiles(bs, lo, hi) && i < |bs|
    ensures SizeOk(bs[i]) && Cut(bs, i, hi) == bs[i].addr && Cut(bs, i + 1, hi) == bs[i].End()
  {
  }

  /** Replacing a run of blocks by another tiling of the same stretch. */
  lemma TilesReplace(bs: seq<Block>, lo: nat, hi: nat, i: nat, j: nat, mid: seq<Block>)
    requires Tiles(bs, lo, hi) && i <= j <= |bs|
    requires Tiles(mid, Cut(bs, i, hi), Cut(bs, j, hi))
    ensures Tiles(bs[..i] + mid + bs[j..], lo, hi)
  {
    hide Tiles, Cut;
    TilesCut(bs, lo, hi, i);
    TilesCut(bs, lo, hi, j);
    TilesConcat(bs[..i], mid, lo, Cut(bs, i, hi), Cut(bs, j, hi));
    TilesConcat(bs[..i] + mid, bs[j..], lo, Cut(bs, j, hi), hi);
  }

  lemma LiveConcat(xs: seq<Block>, ys: seq<Block>)
    ensures Live(xs + ys) == Live(xs) + Live(ys)
  {
  }

  lemma LiveReplace(bs: seq<Block>, i: nat, j: nat, mid: seq<Block>)
    requires i <= j <= |bs|
    ensures Live(bs) == Live(bs[..i]) + Live(bs[i..j]) + Live(bs[j..])
    ensures Live(bs[..i] + mid + bs[j..]) == Live(bs[..i]) + Live(mid) + Live(bs[j..])
  {
    hide Live;
    assert bs == bs[..i] + bs[i..j] + bs[j..];
    LiveConcat(bs[..i], bs[i..j]);
    LiveConcat(bs[..i] + bs[i..j], bs[j..]);
    LiveConcat(bs[..i], mid);
    LiveConcat(bs[..i] + mid, bs[j..]);
  }

  // ----- splitting

  /** What `Take` puts in place of the free block. */
  function Taken(b: Block, request: nat): seq<Block> {
    if b.size <= request + HEADER + MIN_SPLIT then [b.(used := true)]
    else [Block(b.addr, request, true), Block(b.addr + HEADER + request, b.size - request - HEADER, false)]
  }

  lemma TakeIsReplace(bs: seq<Block>, i: nat, request: nat)
    requires i < |bs|
    ensures Take(bs, i, request) == bs[..i] + Taken(bs[i], request) + bs[i + 1..]
  {
  }

  /** Taking a fitting block keeps the tiling and the coalescing. */
  lemma TakeKeeps(bs: seq<Block>, lo: nat, hi: nat, i: nat, request: nat)
    requires Tiles(bs, lo, hi) && Canonical(bs)
    requires i < |bs| && i < LIMIT && Fits(bs[i], request) && request > 0 && request % 8 == 0
    ensures Tiles(Take(bs, i, request), lo, hi)
    ensures Canonical(Take(bs, i, request))
  {
    hide Tiles, Canonical, Take, Taken, Cut, SizeOk;
    TileAt(bs, lo, hi, i);
    TakeIsReplace(bs, i, request);
    TakenTiles(bs[i], request);
    TilesReplace(bs, lo, hi, i, i + 1, Taken(bs[i], request));
    TakeCanonical(bs, i, request);
  }

  lemma TakenTiles(b: Block, request: nat)
    requires SizeOk(b) && Fits(b, request) && request > 0 && request % 8 == 0
    ensures Tiles(Taken(b, request), b.addr, b.End())
  {
    hide SizeOk;
    SplitOk(b, request);
  }

  lemma SplitOk(b: Block, request: nat)
    requires SizeOk(b) && request > 0 && request % 8 == 0
    ensures SizeOk(b.(used := true)) && SizeOk(Block(b.addr, request, true))
    ensures b.size > request + HEADER ==>
      SizeOk(Block(b.addr + HEADER + request, b.size - request - HEADER, false))
  {
  }

  lemma TakeCanonical(bs: seq<Block>, i: nat, request: nat)
    requires Canonical(bs) && i < |bs| && i < LIMIT && Fits(bs[i], request)
    ensures Canonical(Take(bs, i, request))
  {
  }

  lemma TakenLive(b: Block, request: nat)
    requires Fits(b, request)
    ensures Taken(b, request) != [] && Live([b]) == {} && Live(Taken(b, request)) == {Taken(b, request)[0]}
    ensures var t := Taken(b, request)[0]; t.used && t.addr == b.addr && t.size >= request
  {
  }

  lemma TakenFirst(bs: seq<Block>, i: nat, request: nat)
    requires i < |bs|
    ensures Taken(bs[i], request) != [] && i < |Take(bs, i, request)|
    ensures Take(bs, i, request)[i] == Taken(bs[i], request)[0]
  {
  }

  /** ... and adds exactly one live block, at the address of the free block taken, at
      least as large as the request. */
  lemma TakeLive(bs: seq<Block>, lo: nat, hi: nat, i: nat, request: nat)
    requires Tiles(bs, lo, hi) && i < |bs| && Fits(bs[i], request)
    ensures var cs := Take(bs, i, request);
      && i < |cs| && cs[i].used && cs[i].addr == bs[i].addr && cs[i].size >= request
      && Live(cs) == Live(bs) + {cs[i]} && cs[i] !in Live(bs)
  {
    hide Tiles, Take, Taken, Live;
    var cs := Take(bs, i, request);
    TakeIsReplace(bs, i, request);
    LiveReplace(bs, i, i + 1, Taken(bs[i], request));
    assert bs[i..i + 1] == [bs[i]];
    TakenFirst(bs, i, request);
    TakenLive(bs[i], request);
    assert Live(cs) == Live(bs) + {cs[i]};
    if cs[i] in Live(bs) {
      var j := LiveIndex(bs, cs[i]);
      PayloadUnique(bs, lo, hi, i, j);
    }
  }

  /** A taken block keeps at most 32 bytes more than asked for; what is cut off is a free block
      of more than 16 bytes right behind it. */
  lemma TakeTight(bs: seq<Block>, i: nat, request: nat)
    requires i < |bs| && Fits(bs[i], request)
    ensures var cs := Take(bs, i, request);
      && i < |cs| && request <= cs[i].size <= request + 32
      && (if bs[i].size <= request + 32 then cs == bs[i := bs[i].(used := true)]
          else
            && |cs| == |bs| + 1 && cs[..i] == bs[..i] && cs[i + 2..] == bs[i + 1..]
            && cs[i] == Block(bs[i].addr, request, true)
            && cs[i + 1].addr == cs[i].End() && cs[i + 1].End() == bs[i].End() && cs[i + 1].size > 16
            && !cs[i + 1].used)
  {
    if bs[i].size > request + 32 {
      var cs := Take(bs, i, request);
      assert cs[i + 2..] == bs[i + 1..];
    }
  }

  lemma LiveIndex(bs: seq<Block>, b: Block) returns (j: nat)
    requires b in Live(bs)
    ensures j < |bs| && bs[j] == b && b.used
  {
    j :| j < |bs| && bs[j] == b;
  }

  /** The live blocks gained exactly one block, whose payload starts at `p`, is 8-byte
      aligned, holds `size` bytes and overlaps no payload that was live before. */
  ghost predicate Gained(before: set<Block>, after: set<Block>, p: nat, size: nat) {
    exists b :: && b !in before && after == before + {b}
                && b.Payload() == p && p % 8 == 0 && b.size >= size
                && forall c :: c in before ==> b.End() <= c.addr || c.End() <= b.addr
  }

  lemma TakeGains(bs: seq<Block>, lo: nat, hi: nat, i: nat, request: nat)
    requires Tiles(bs, lo, hi) && Canonical(bs)
    requires i < |bs| && i < LIMIT && Fits(bs[i], request) && request > 0 && request % 8 == 0
    ensures Gained(Live(bs), Live(Take(bs, i, request)), bs[i].Payload(), request)
  {
    hide Tiles, Canonical, Take, Live, SizeOk;
    TakeKeeps(bs, lo, hi, i, request);
    TakeLive(bs, lo, hi, i, request);
    var cs := Take(bs, i, request);
    assert bs[i].Payload() % 8 == 0 by { PayloadAligned(bs, lo, hi, i); }
    forall c | c in Live(bs) ensures cs[i].End() <= c.addr || c.End() <= cs[i].addr {
      LiveDisjoint(cs, lo, hi, cs[i], c);
    }
  }

  lemma PayloadAligned(bs: seq<Block>, lo: nat, hi: nat, i: nat)
    requires Tiles(bs, lo, hi) && i < |bs|
    ensures bs[i].Payload() % 8 == 0
  {
    assert SizeOk(bs[i]);
  }

  lemma GainedWeaken(before: set<Block>, after: set<Block>, p: nat, size: nat, request: nat)
    requires Gained(before, after, p, request) && size <= request
    ensures Gained(before, after, p, size)
  {
  }

  /** A request that rounds to zero leaves a zero-sized block, unless the block is too
      small to split. */
  lemma ZeroRequest(bs: seq<Block>, lo: nat, hi: nat, i: nat)
    requires Tiles(bs, lo, hi) && i < |bs| && !bs[i].used
    ensures Tiles(Take(bs, i, 0), lo, hi) <==> bs[i].size <= HEADER + MIN_SPLIT
  {
    TakeIsReplace(bs, i, 0);
    var cs := Take(bs, i, 0);
    if bs[i].size <= HEADER + MIN_SPLIT {
      assert Tiles(Taken(bs[i], 0), bs[i].addr, bs[i].End());
      TilesReplace(bs, lo, hi, i, i + 1, Taken(bs[i], 0));
    } else {
      assert !SizeOk(cs[i]);
    }
  }

  // ----- coalescing

  ghost predicate CanonicalBelow(bs: seq<Block>, n: nat) {
    forall i :: 0 <= i < n && i + 1 < |bs| ==> bs[i].used || bs[i + 1].used
  }

  /** One merge keeps the tiling and the live blocks. */
  lemma JoinKeeps(bs: seq<Block>, lo: nat, hi: nat, i: nat)
    requires Tiles(bs, lo, hi) && i + 1 < |bs| && Mergeable(bs[i], bs[i + 1])
    ensures var cs := bs[..i] + [Join(bs[i], bs[i + 1])] + bs[i + 2..];
      Tiles(cs, lo, hi) && Live(cs) == Live(bs)
  {
    hide Tiles, Live, Cut, SizeOk, Mergeable, Join;
    var joined := [Join(bs[i], bs[i + 1])];
    TileAt(bs, lo, hi, i);
    TileAt(bs, lo, hi, i + 1);
    JoinedTiles(bs[i], bs[i + 1]);
    TilesReplace(bs, lo, hi, i, i + 2, joined);
    LiveReplace(bs, i, i + 2, joined);
    assert bs[i..i + 2] == [bs[i], bs[i + 1]];
  }

  lemma JoinedTiles(a: Block, b: Block)
    requires Mergeable(a, b) && SizeOk(a) && SizeOk(b)
    ensures Tiles([Join(a, b)], a.addr, b.End())
    ensures Live([a, b]) == {} && Live([Join(a, b)]) == {}
  {
  }

  /** Coalescing keeps the tiling and the live blocks, and leaves no two free neighbours. */
  lemma {:induction false} MergeKeeps(bs: seq<Block>, lo: nat, hi: nat, i: nat)
    requires Tiles(bs, lo, hi) && CanonicalBelow(bs, i) && i <= LIMIT
    ensures Tiles(MergeFrom(bs, i), lo, hi)
    ensures Canonical(MergeFrom(bs, i))
    ensures Live(MergeFrom(bs, i)) == Live(bs)
    decreases |bs| - i
  {
    hide Tiles, Live, Join;
    if i >= LIMIT || i + 1 >= |bs| {
    } else if Mergeable(bs[i], bs[i + 1]) {
      JoinKeeps(bs, lo, hi, i);
      MergeKeeps(bs[..i] + [Join(bs[i], bs[i + 1])] + bs[i + 2..], lo, hi, i);
    } else {
      assert bs[i].used || bs[i + 1].used by { TileAt(bs, lo, hi, i); }
      MergeKeeps(bs, lo, hi, i + 1);
    }
  }

  /** The merge walk passes over blocks it cannot merge. */
  lemma {:induction false} MergeSkip(bs: seq<Block>, i: nat, k: nat)
    requires i <= k <= LIMIT && k < |bs|
    requires forall j :: i <= j < k ==> !Mergeable(bs[j], bs[j + 1])
    ensures MergeFrom(bs, i) == MergeFrom(bs, k)
    decreases k - i
  {
    if i < k {
      MergeSkip(bs, i + 1, k);
    }
  }

  lemma MergeIdentity(bs: seq<Block>, i: nat)
    requires Canonical(bs)
    ensures MergeFrom(bs, i) == bs
  {
    if i < LIMIT && i + 1 < |bs| {
      var k := if |bs| - 1 < LIMIT then |bs| - 1 else LIMIT;
      MergeSkip(bs, i, k);
    }
  }

  lemma OneTiles(b: Block, used: bool)
    requires SizeOk(b)
    ensures Tiles([b.(used := used)], b.addr, b.End())
  {
  }

  lemma MarkTiles(bs: seq<Block>, lo: nat, hi: nat, i: nat, used: bool)
    requires Tiles(bs, lo, hi) && i < |bs|
    ensures Tiles(bs[i := bs[i].(used := used)], lo, hi)
  {
    hide Tiles, Cut, SizeOk;
    var b := bs[i].(used := used);
    assert bs[i := b] == bs[..i] + [b] + bs[i + 1..];
    TileAt(bs, lo, hi, i);
    assert Tiles([b], bs[i].addr, bs[i].End()) by { OneTiles(bs[i], used); }
    TilesReplace(bs, lo, hi, i, i + 1, [b]);
  }

  /** Releasing a live block removes exactly it from the live blocks. */
  lemma ReleaseKeeps(bs: seq<Block>, lo: nat, hi: nat, i: nat)
    requires Tiles(bs, lo, hi) && i < |bs| && bs[i].used
    ensures Tiles(Release(bs, i), lo, hi)
    ensures Canonical(Release(bs, i))
    ensures Live(Release(bs, i)) == Live(bs) - {bs[i]}
  {
    hide Tiles, Canonical, Live, MergeFrom;
    var cs := bs[i := bs[i].(used := false)];
    assert cs == bs[..i] + [cs[i]] + bs[i + 1..];
    MarkTiles(bs, lo, hi, i, false);
    LiveReplace(bs, i, i + 1, [cs[i]]);
    assert bs[i..i + 1] == [bs[i]];
    LiveOne(bs[i]);
    LiveOne(cs[i]);
    OnlyHere(bs, lo, hi, i);
    assert Live(cs) == Live(bs) - {bs[i]};
    MergeKeeps(cs, lo, hi, 0);
  }

  lemma LiveOne(b: Block)
    ensures Live([b]) == if b.used then {b} else {}
  {
  }

  lemma OnlyHere(bs: seq<Block>, lo: nat, hi: nat, i: nat)
    requires Tiles(bs, lo, hi) && i < |bs|
    ensures bs[i] !in Live(bs[..i]) && bs[i] !in Live(bs[i + 1..])
  {
    hide Tiles;
    forall j | 0 <= j < |bs| && bs[j] == bs[i] ensures j == i {
      PayloadUnique(bs, lo, hi, i, j);
    }
  }

  /** Freeing what was just taken restores the block list exactly. */
  lemma ReleaseUndoesTake(bs: seq<Block>, lo: nat, hi: nat, i: nat, request: nat)
    requires Tiles(bs, lo, hi) && Canonical(bs)
    requires i < |bs| && i < LIMIT && Fits(bs[i], request) && request > 0 && request % 8 == 0
    ensures i < |Take(bs, i, request)|
    ensures Release(Take(bs, i, request), i) == bs
  {
    var cs := Take(bs, i, request);
    var ds := cs[i := cs[i].(used := false)];
    if bs[i].size <= request + HEADER + MIN_SPLIT {
      assert ds == bs;
      MergeIdentity(bs, 0);
    } else {
      MergeSkip(ds, 0, i);
      assert ds[..i] + [Join(ds[i], ds[i + 1])] + ds[i + 2..] == bs;
      MergeIdentity(bs, i);
    }
  }

  // ----- growth

  /** `n` fresh one-page blocks from `addr` on. */
  function PageBlocks(addr: nat, n: nat): (ps: seq<Block>)
    ensures |ps| == n
    ensures forall k :: 0 <= k < n ==> ps[k] == Block(addr + k * PAGE, PAGE - HEADER, false)
    decreases n
  {
    if n == 0 then [] else [Block(addr, PAGE - HEADER, false)] + PageBlocks(addr + PAGE, n - 1)
  }

  /** The block list after `n` pages were appended at `next` and coalesced. */
  function Grow(bs: seq<Block>, next: nat, n: nat): seq<Block> {
    MergeFrom(bs + PageBlocks(next, n), 0)
  }

  lemma {:induction false} PageBlocksTile(addr: nat, n: nat)
    requires addr % 8 == 0
    ensures Tiles(PageBlocks(addr, n), addr, addr + n * PAGE)
    ensures Live(PageBlocks(addr, n)) == {}
    decreases n
  {
    if n > 0 {
      var first := [Block(addr, PAGE - HEADER, false)];
      PageBlocksTile(addr + PAGE, n - 1);
      assert Tiles(first, addr, addr + PAGE);
      TilesConcat(first, PageBlocks(addr + PAGE, n - 1), addr, addr + PAGE, addr + n * PAGE);
    }
  }

  lemma GrowKeeps(bs: seq<Block>, lo: nat, next: nat, n: nat)
    requires Tiles(bs, lo, next) && next % 8 == 0
    ensures Tiles(Grow(bs, next, n), lo, next + n * PAGE)
    ensures Canonical(Grow(bs, next, n))
    ensures Live(Grow(bs, next, n)) == Live(bs)
  {
    var ps := PageBlocks(next, n);
    PageBlocksTile(next, n);
    TilesConcat(bs, ps, lo, next, next + n * PAGE);
    LiveConcat(bs, ps);
    MergeKeeps(bs + ps, lo, next + n * PAGE, 0);
  }

  /** A free block reached by the merge walk absorbs all the fresh pages behind it. */
  lemma {:induction false} Absorb(xs: seq<Block>, b: Block, n: nat)
    requires !b.used && |xs| < LIMIT
    ensures MergeFrom(xs + [b] + PageBlocks(b.End(), n), |xs|) == xs + [b.(size := b.size + n * PAGE)]
    decreases n
  {
    if n == 0 {
      assert xs + [b] + PageBlocks(b.End(), 0) == xs + [b];
    } else {
      var first := Block(b.End(), PAGE - HEADER, false);
      var c := Join(b, first);
      AbsorbOne(xs, b, first, PageBlocks(first.End(), n - 1));
      Absorb(xs, c, n - 1);
    }
  }

  lemma AbsorbOne(xs: seq<Block>, b: Block, c: Block, rest: seq<Block>)
    requires Mergeable(b, c) && |xs| < LIMIT
    ensures MergeFrom(xs + [b] + ([c] + rest), |xs|) == MergeFrom(xs + [Join(b, c)] + rest, |xs|)
  {
    hide Mergeable, Join;
    var bs, i := xs + [b] + ([c] + rest), |xs|;
    assert bs[i] == b && bs[i + 1] == c && bs[..i] == xs && bs[i + 2..] == rest;
  }

  predicate LastIsFree(bs: seq<Block>) {
    bs != [] && !bs[|bs| - 1].used
  }

  lemma GrowJoins(bs: seq<Block>, next: nat, n: nat)
    requires LastIsFree(bs) && |bs| <= LIMIT && Canonical(bs) && bs[|bs| - 1].End() == next
    ensures Grow(bs, next, n) == bs[..|bs| - 1] + [bs[|bs| - 1].(size := bs[|bs| - 1].size + n * PAGE)]
  {
    var m := |bs|;
    var all := bs + PageBlocks(next, n);
    assert all == bs[..m - 1] + [bs[m - 1]] + PageBlocks(next, n);
    MergeSkip(all, 0, m - 1);
    Absorb(bs[..m - 1], bs[m - 1], n);
  }

  lemma GrowAppends(bs: seq<Block>, next: nat, n: nat)
    requires !LastIsFree(bs) && |bs| < LIMIT && Canonical(bs) && n > 0
    ensures Grow(bs, next, n) == bs + [Block(next, n * PAGE - HEADER, false)]
  {
    var first := Block(next, PAGE - HEADER, false);
    var all := bs + PageBlocks(next, n);
    assert PageBlocks(next, n) == [first] + PageBlocks(first.End(), n - 1);
    assert all == bs + [first] + PageBlocks(first.End(), n - 1);
    MergeSkip(all, 0, |bs|);
    Absorb(bs, first, n - 1);
  }

  /** Growth in closed form: the new pages become one free block, joined to a free last
      block, unless the list is already longer than the walk. */
  lemma GrowShape(bs: seq<Block>, lo: nat, next: nat, n: nat)
    requires Tiles(bs, lo, next) && Canonical(bs) && n > 0
    ensures Grow(bs, next, n) ==
      if LastIsFree(bs) && |bs| <= LIMIT then
        bs[..|bs| - 1] + [bs[|bs| - 1].(size := bs[|bs| - 1].size + n * PAGE)]
      else if |bs| < LIMIT then bs + [Block(next, n * PAGE - HEADER, false)]
      else bs + PageBlocks(next, n)
  {
    if LastIsFree(bs) && |bs| <= LIMIT {
      GrowJoins(bs, next, n);
    } else if |bs| < LIMIT {
      GrowAppends(bs, next, n);
    } else {
      MergeSkip(bs + PageBlocks(next, n), 0, LIMIT);
    }
  }

  /** After a growth by enough pages a fitting block is visible, unless the walk limit
      hides it. */
  lemma GrowthSuffices(bs: seq<Block>, lo: nat, next: nat, n: nat, request: nat)
    requires Tiles(bs, lo, next) && Canonical(bs) && n > 0
    requires request + HEADER <= n * PAGE && FirstFit(bs, request).None?
    ensures FirstFit(Grow(bs, next, n), request).Some? <==>
            |bs| < LIMIT || (|bs| == LIMIT && LastIsFree(bs))
  {
    GrowShape(bs, lo, next, n);
    var cs := Grow(bs, next, n);
    if LastIsFree(bs) && |bs| <= LIMIT {
      assert Fits(cs[|bs| - 1], request);
    } else if |bs| < LIMIT {
      assert Fits(cs[|bs|], request);
    } else {
      assert forall j :: 0 <= j < LIMIT ==> cs[j] == bs[j];
    }
  }

  // ----- bytes

  function Bytes(bs: seq<Block>, used: bool): nat {
    if bs == [] then 0
    else (if bs[0].used == used then bs[0].size else 0) + Bytes(bs[1..], used)
  }

  function Count(bs: seq<Block>, used: bool): nat {
    if bs == [] then 0 else (if bs[0].used == used then 1 else 0) + Count(bs[1..], used)
  }

  /** The prefix of the list that a bounded walk sees. */
  function Visited(bs: seq<Block>): seq<Block> {
    if |bs| <= LIMIT then bs else bs[..LIMIT]
  }

  lemma {:induction false} BytesTile(bs: seq<Block>, lo: nat, hi: nat)
    requires Tiles(bs, lo, hi)
    ensures Bytes(bs, true) + Bytes(bs, false) + HEADER * |bs| == hi - lo
    ensures Count(bs, true) + Count(bs, false) == |bs|
  {
    if bs != [] {
      TilesCut(bs, lo, hi, 1);
      BytesTile(bs[1..], Cut(bs, 1, hi), hi);
    }
  }

  /** The bytes and headers the bounded walk accounts for are the whole range exactly when
      the walk sees every block. */
  lemma VisitedAccountsForAll(bs: seq<Block>, lo: nat, hi: nat)
    requires Tiles(bs, lo, hi)
    ensures var v := Visited(bs);
      Bytes(v, true) + Bytes(v, false) + HEADER * |v| == hi - lo <==> |bs| <= LIMIT
  {
    if |bs| <= LIMIT {
      BytesTile(bs, lo, hi);
    } else {
      TilesCut(bs, lo, hi, LIMIT);
      BytesTile(bs[..LIMIT], lo, bs[LIMIT].addr);
      TilesOrdered(bs, lo, hi);
    }
  }

  // ----- the coalesced list is determined by its live blocks

  lemma {:induction false} CanonicalUnique(bs: seq<Block>, cs: seq<Block>, lo: nat, hi: nat)
    requires Tiles(bs, lo, hi) && Tiles(cs, lo, hi)
    requires CanonicalBelow(bs, |bs|) && CanonicalBelow(cs, |cs|)
    requires Live(bs) == Live(cs)
    ensures bs == cs
    decreases |bs|
  {
    if bs == [] || cs == [] {
      TilesOrdered(bs, lo, hi);
      TilesOrdered(cs, lo, hi);
    } else {
      FirstAgrees(bs, cs, lo, hi);
      FirstAgrees(cs, bs, lo, hi);
      assert bs[0] == cs[0];
      TilesCut(bs, lo, hi, 1);
      TilesCut(cs, lo, hi, 1);
      LiveTail(bs, lo, hi);
      LiveTail(cs, lo, hi);
      CanonicalUnique(bs[1..], cs[1..], bs[0].End(), hi);
      assert bs == [bs[0]] + bs[1..] && cs == [cs[0]] + cs[1..];
    }
  }

  lemma LiveTail(bs: seq<Block>, lo: nat, hi: nat)
    requires Tiles(bs, lo, hi) && bs != []
    ensures Live(bs[1..]) == Live(bs) - {bs[0]}
  {
    assert bs == [bs[0]] + bs[1..];
    LiveConcat([bs[0]], bs[1..]);
    forall j | 1 <= j < |bs| ensures bs[j] != bs[0] {
      TilesApart(bs, lo, hi, 0, j);
    }
  }

  lemma SecondInside(bs: seq<Block>, cs: seq<Block>, lo: nat, hi: nat)
    requires Tiles(bs, lo, hi) && Tiles(cs, lo, hi) && bs != [] && cs != []
    requires CanonicalBelow(bs, |bs|) && !bs[0].used && bs[0].size < cs[0].size
    ensures !(Live(bs) <= Live(cs))
  {
    TilesOrdered(cs, lo, hi);
    assert |bs| > 1 && bs[1] in Live(bs);
    forall j | 0 <= j < |cs| ensures cs[j] != bs[1] {
      assert j == 0 || cs[0].End() <= cs[j].addr;
    }
  }

  /** The first block of one list is no longer than the first block of the other. */
  lemma FirstAgrees(bs: seq<Block>, cs: seq<Block>, lo: nat, hi: nat)
    requires Tiles(bs, lo, hi) && Tiles(cs, lo, hi) && bs != [] && cs != []
    requires CanonicalBelow(bs, |bs|)
    requires Live(bs) <= Live(cs)
    ensures bs[0].addr == cs[0].addr
    ensures bs[0].used ==> cs[0] == bs[0]
    ensures !bs[0].used && !cs[0].used ==> cs[0].size <= bs[0].size
  {
    if bs[0].used {
      assert bs[0] in Live(cs);
      var j :| 0 <= j < |cs| && cs[j] == bs[0];
      PayloadUnique(cs, lo, hi, 0, j);
    } else if !cs[0].used && bs[0].size < cs[0].size {
      SecondInside(bs, cs, lo, hi);
    }
  }

  /** For a list within the walk limit, releasing yields the one coalesced tiling whose
      live blocks are the others. */
  lemma ReleaseCharacterised(bs: seq<Block>, lo: nat, hi: nat, i: nat, cs: seq<Block>)
    requires Tiles(bs, lo, hi) && i < |bs| <= LIMIT && bs[i].used
    ensures (Tiles(cs, lo, hi) && CanonicalBelow(cs, |cs|) && Live(cs) == Live(bs) - {bs[i]})
            <==> cs == Release(bs, i)
  {
    ReleaseKeeps(bs, lo, hi, i);
    MergeShrinks(bs[i := bs[i].(used := false)], 0);
    if Tiles(cs, lo, hi) && CanonicalBelow(cs, |cs|) && Live(cs) == Live(bs) - {bs[i]} {
      CanonicalUnique(cs, Release(bs, i), lo, hi);
    }
  }

  lemma {:induction false} MergeShrinks(bs: seq<Block>, i: nat)
    ensures |MergeFrom(bs, i)| <= |bs|
    decreases |bs| - i
  {
    if i >= LIMIT || i + 1 >= |bs| {
    } else if Mergeable(bs[i], bs[i + 1]) {
      MergeShrinks(bs[..i] + [Join(bs[i], bs[i + 1])] + bs[i + 2..], i);
    } else {
      MergeShrinks(bs, i + 1);
    }
  }
}
