/** The kernel heap object: block headers in memory linked by address, walked and rewritten
    in place, over the page mapper. Each operation refines its function in `HeapMachine`. */
module KernelHeap {
  import opened MachineWords
  import P = Pmm32
  import V = Vmm32
  import B = HeapBlocks
  import G = HeapGrowth
  import M = HeapMachine

  const MAGIC: nat := 0x4845_4150

  datatype Header = Header(magic: nat, size: nat, used: bool, next: nat)

  // ----- the linked list in memory

  function NextOf(bs: seq<B.Block>, i: nat): nat
    requires i < |bs|
  {
    if i + 1 < |bs| then bs[i + 1].addr else 0
  }

  function AddrAt(bs: seq<B.Block>, i: nat): nat {
    if i < |bs| then bs[i].addr else 0
  }

  ghost predicate HeaderAt(mem: map<nat, Header>, bs: seq<B.Block>, i: nat)
    requires i < |bs|
  {
    bs[i].addr in mem && mem[bs[i].addr] == Header(MAGIC, bs[i].size, bs[i].used, NextOf(bs, i))
  }

  /** Following `next` from `head` visits exactly the headers of `bs`, in order. */
  ghost predicate Linked(mem: map<nat, Header>, head: nat, bs: seq<B.Block>) {
    head == AddrAt(bs, 0) && forall i :: 0 <= i < |bs| ==> HeaderAt(mem, bs, i)
  }

  lemma LinkedMark(mem: map<nat, Header>, head: nat, bs: seq<B.Block>, lo: nat, hi: nat, i: nat, used: bool)
    requires Linked(mem, head, bs) && B.Tiles(bs, lo, hi) && i < |bs|
    ensures HeaderAt(mem, bs, i)
    ensures Linked(mem[bs[i].addr := mem[bs[i].addr].(used := used)], head, bs[i := bs[i].(used := used)])
  {
    assert HeaderAt(mem, bs, i);
    B.TilesOrdered(bs, lo, hi);
    hide B.Tiles;
    var mem', bs' := mem[bs[i].addr := mem[bs[i].addr].(used := used)], bs[i := bs[i].(used := used)];
    forall j | 0 <= j < |bs'| ensures HeaderAt(mem', bs', j) {
      assert HeaderAt(mem, bs, j);
    }
  }

  lemma LinkedSplit(mem: map<nat, Header>, head: nat, bs: seq<B.Block>, lo: nat, hi: nat, i: nat, request: nat,
      used: bool)
    requires Linked(mem, head, bs) && B.Tiles(bs, lo, hi) && i < |bs|
    requires bs[i].size > request + B.HEADER + B.MIN_SPLIT
    ensures var a := bs[i].addr; var fresh' := a + B.HEADER + request;
      var mem' := mem[fresh' := Header(MAGIC, bs[i].size - request - B.HEADER, false, NextOf(bs, i))]
                     [a := Header(MAGIC, request, used, fresh')];
      Linked(mem', head, bs[..i] + [B.Block(a, request, used),
                                    B.Block(fresh', bs[i].size - request - B.HEADER, false)] + bs[i + 1..])
  {
    var a := bs[i].addr;
    var fresh' := a + B.HEADER + request;
    var bs' := bs[..i] + [B.Block(a, request, used),
                          B.Block(fresh', bs[i].size - request - B.HEADER, false)] + bs[i + 1..];
    var mem' := mem[fresh' := Header(MAGIC, bs[i].size - request - B.HEADER, false, NextOf(bs, i))]
                   [a := Header(MAGIC, request, used, fresh')];
    forall j | 0 <= j < |bs'| ensures HeaderAt(mem', bs', j) {
      hide B.Tiles;
      if j < i {
        B.TilesApart(bs, lo, hi, j, i);
        assert HeaderAt(mem, bs, j);
        assert bs'[j] == bs[j];
      } else if j > i + 1 {
        B.TilesApart(bs, lo, hi, i, j - 1);
        assert HeaderAt(mem, bs, j - 1);
        assert bs'[j] == bs[j - 1];
      }
    }
  }

  lemma LinkedJoin(mem: map<nat, Header>, head: nat, bs: seq<B.Block>, lo: nat, hi: nat, i: nat)
    requires Linked(mem, head, bs) && B.Tiles(bs, lo, hi) && i + 1 < |bs|
    requires B.Mergeable(bs[i], bs[i + 1])
    ensures HeaderAt(mem, bs, i) && HeaderAt(mem, bs, i + 1)
    ensures var joined := B.Join(bs[i], bs[i + 1]);
      Linked(mem[bs[i].addr := Header(MAGIC, joined.size, false, NextOf(bs, i + 1))], head,
             bs[..i] + [joined] + bs[i + 2..])
  {
    B.TilesOrdered(bs, lo, hi);
    hide B.Tiles;
    assert HeaderAt(mem, bs, i) && HeaderAt(mem, bs, i + 1);
    var joined := B.Join(bs[i], bs[i + 1]);
    var bs' := bs[..i] + [joined] + bs[i + 2..];
    var mem' := mem[bs[i].addr := Header(MAGIC, joined.size, false, NextOf(bs, i + 1))];
    forall j | 0 <= j < |bs'| ensures HeaderAt(mem', bs', j) {
      if j < i {
        assert HeaderAt(mem, bs, j);
        assert bs'[j] == bs[j];
      } else if j > i {
        assert HeaderAt(mem, bs, j + 1);
        assert bs'[j] == bs[j + 1];
      }
    }
  }

  /** Linking two chains: the last header of the first gets the head of the second. */
  lemma LinkedAppend(mem: map<nat, Header>, head: nat, bs: seq<B.Block>, cs: seq<B.Block>, lo: nat, mid: nat, hi: nat)
    requires Linked(mem, head, bs) && B.Tiles(bs, lo, mid) && bs != []
    requires cs != [] && Linked(mem, cs[0].addr, cs) && B.Tiles(cs, mid, hi)
    ensures HeaderAt(mem, bs, |bs| - 1)
    ensures var last := bs[|bs| - 1].addr;
      Linked(mem[last := mem[last].(next := cs[0].addr)], head, bs + cs)
  {
    B.TilesOrdered(bs, lo, mid);
    B.TilesOrdered(cs, mid, hi);
    hide B.Tiles;
    var n := |bs|;
    assert HeaderAt(mem, bs, n - 1);
    var last := bs[n - 1].addr;
    var mem' := mem[last := mem[last].(next := cs[0].addr)];
    forall j | 0 <= j < |bs + cs| ensures HeaderAt(mem', bs + cs, j) {
      if j < n {
        assert HeaderAt(mem, bs, j);
      } else {
        assert HeaderAt(mem, cs, j - n);
        assert cs[j - n].addr >= mid;
      }
    }
  }

  /** Writes at or above `mid` do not touch a chain that tiles [lo, mid). */
  lemma LinkedBelow(mem: map<nat, Header>, mem': map<nat, Header>, head: nat, bs: seq<B.Block>, lo: nat, mid: nat)
    requires Linked(mem, head, bs) && B.Tiles(bs, lo, mid)
    requires forall a :: a in mem && a < mid ==> a in mem' && mem'[a] == mem[a]
    ensures Linked(mem', head, bs)
  {
    B.TilesOrdered(bs, lo, mid);
    forall i | 0 <= i < |bs| ensures HeaderAt(mem', bs, i) {
      assert HeaderAt(mem, bs, i);
    }
  }

  /** A fresh page block linked behind the `k` page blocks before it. */
  lemma LinkedPage(mem: map<nat, Header>, start: nat, k: nat)
    requires start % 8 == 0
    requires Linked(mem, AddrAt(B.PageBlocks(start, k), 0), B.PageBlocks(start, k))
    ensures var page := start + k * PAGE;
      var mem1 := mem[page := Header(MAGIC, PAGE - B.HEADER, false, 0)];
      && (k > 0 ==> page - PAGE in mem1)
      && Linked(if k > 0 then mem1[page - PAGE := mem1[page - PAGE].(next := page)] else mem1,
                start, B.PageBlocks(start, k + 1))
  {
    var page := start + k * PAGE;
    var ps, cs := B.PageBlocks(start, k), [B.Block(page, PAGE - B.HEADER, false)];
    var mem1 := mem[page := Header(MAGIC, PAGE - B.HEADER, false, 0)];
    assert B.PageBlocks(start, k + 1) == ps + cs;
    B.PageBlocksTile(start, k);
    LinkedBelow(mem, mem1, AddrAt(ps, 0), ps, start, page);
    assert Linked(mem1, page, cs) && B.Tiles(cs, page, page + PAGE);
    if k > 0 {
      LinkedAppend(mem1, start, ps, cs, start, page, page + PAGE);
    } else {
      assert ps + cs == cs;
    }
  }

  /** `heap_block_header_is_sane`. */
  predicate Sane(mem: map<nat, Header>, a: nat) {
    && a != 0 && M.START <= a < M.TOP && a % 8 == 0 && a in mem
    && mem[a].magic == MAGIC && mem[a].size != 0
    && a + B.HEADER + mem[a].size - 1 < M.TOP
  }

  lemma SaneAt(mem: map<nat, Header>, head: nat, bs: seq<B.Block>, hi: nat, i: nat)
    requires Linked(mem, head, bs) && B.Tiles(bs, M.START, hi) && hi <= M.TOP && i < |bs|
    ensures Sane(mem, bs[i].addr) && HeaderAt(mem, bs, i)
  {
    assert HeaderAt(mem, bs, i);
    B.TilesOrdered(bs, M.START, hi);
    assert B.SizeOk(bs[i]);
  }

  ghost predicate CountsOf(bs: seq<B.Block>, usedBytes: nat, freeBytes: nat, allocations: nat, frees: nat) {
    var v := B.Visited(bs);
    && usedBytes == B.Bytes(v, true) && freeBytes == B.Bytes(v, false)
    && allocations == B.Count(v, true) && frees == B.Count(v, false)
  }

  lemma NonNull(bs: seq<B.Block>, hi: nat)
    requires B.Tiles(bs, M.START, hi)
    ensures forall i :: 0 <= i < |bs| ==> bs[i].addr != 0
  {
    B.TilesOrdered(bs, M.START, hi);
  }

  lemma LinkedHead(mem: map<nat, Header>, head: nat, bs: seq<B.Block>, hi: nat)
    requires Linked(mem, head, bs) && B.Tiles(bs, M.START, hi)
    ensures head == 0 <==> bs == []
  {
    hide HeaderAt, B.Tiles;
    NonNull(bs, hi);
  }

  lemma HeaderHeld(mem: map<nat, Header>, bs: seq<B.Block>, i: nat)
    requires i < |bs| && HeaderAt(mem, bs, i)
    ensures bs[i].addr in mem
  {
  }

  class Heap {
    var initialized: bool
    var head: nat
    var mem: map<nat, Header>
    var nextPage: nat
    var totalBytes: nat
    var usedBytes: nat
    var freeBytes: nat
    var allocationCount: nat
    var freeBlockCount: nat
    var failedGrows: nat
    var failedAllocations: nat
    var successfulFrees: nat
    var invalidFrees: nat
    var doubleFrees: nat
    const mapper: V.PageMapper
    /** The blocks the header chain stands for. */
    ghost var blocks: seq<B.Block>

    ghost predicate Shaped()
      reads this, mapper, mapper.frames
    {
      mapper.Shaped()
    }

    ghost function Machine(): M.State
      requires Shaped()
      reads this, mapper, mapper.directory, mapper.frames, mapper.frames.freeStack
    {
      M.State(initialized, blocks, nextPage, mapper.Snapshot(), mapper.frames.Snapshot())
    }

    /** The counters agree with the blocks a bounded walk sees. */
    ghost predicate Counted()
      reads this
    {
      CountsOf(blocks, usedBytes, freeBytes, allocationCount, freeBlockCount)
    }

    ghost predicate Valid()
      reads this, mapper, mapper.directory, mapper.frames, mapper.frames.freeStack
    {
      && Shaped() && M.Valid(Machine())
      && Linked(mem, head, blocks)
      && totalBytes == nextPage - M.START
      && Counted()
    }

    constructor (pageMapper: V.PageMapper)
      requires pageMapper.Shaped()
      ensures mapper == pageMapper && Shaped() && Empty()
    {
      initialized, head, mem, nextPage, totalBytes, blocks := false, 0, map[], M.START, 0, [];
      usedBytes, freeBytes, allocationCount, freeBlockCount := 0, 0, 0, 0;
      failedGrows, failedAllocations, successfulFrees, invalidFrees, doubleFrees := 0, 0, 0, 0, 0;
      mapper := pageMapper;
    }

    /** Nothing claimed yet. */
    ghost predicate Empty()
      reads this
    {
      && !initialized && head == 0 && blocks == [] && nextPage == M.START && totalBytes == 0
      && usedBytes == freeBytes == allocationCount == freeBlockCount == 0
    }

    /** `heap_find_last_block` on a non-empty list. */
    method FindLastBlock(ghost end: nat) returns (block: nat)
      requires Linked(mem, head, blocks) && blocks != [] && B.Tiles(blocks, M.START, end)
      ensures block == blocks[|blocks| - 1].addr
    {
      block := head;
      ghost var i := 0;
      NonNull(blocks, end);
      assert HeaderAt(mem, blocks, 0);
      while mem[block].next != 0
        invariant 0 <= i < |blocks| && block == blocks[i].addr && HeaderAt(mem, blocks, i)
        decreases |blocks| - i
      {
        block := mem[block].next;
        i := i + 1;
        assert HeaderAt(mem, blocks, i);
      }
    }

    /** `heap_rollback_growth`. */
    method RollbackGrowth(start: nat, frames: seq<nat>)
      requires Shaped() && G.Ready(mapper.Snapshot(), mapper.frames.Snapshot())
      requires start + |frames| * PAGE <= U32
      requires forall f :: f in frames ==> f !in mapper.tables
      modifies mapper, mapper.frames, mapper.frames.freeStack
      ensures Shaped()
      ensures (mapper.Snapshot(), mapper.frames.Snapshot())
              == G.Rollback(old(mapper.Snapshot()), old(mapper.frames.Snapshot()), start, frames)
    {
      hide V.Valid, V.TablesReserved, P.Valid, V.UnmapPage, P.Free;
      var i := 0;
      while i < |frames|
        invariant 0 <= i <= |frames| && Shaped()
        invariant G.Ready(mapper.Snapshot(), mapper.frames.Snapshot())
        invariant mapper.tables.Keys == old(mapper.tables).Keys
        invariant G.Rollback(mapper.Snapshot(), mapper.frames.Snapshot(), start + i * PAGE, frames[i..])
                  == G.Rollback(old(mapper.Snapshot()), old(mapper.frames.Snapshot()), start, frames)
      {
        G.RollbackOne(mapper.Snapshot(), mapper.frames.Snapshot(), start + i * PAGE, frames[i]);
        var _ := mapper.Unmap(start + i * PAGE);
        mapper.frames.FreePage(frames[i]);
        assert frames[i..][1..] == frames[i + 1..];
        i := i + 1;
      }
    }

    /** `heap_recalculate_stats`: the walk ends early at a header that is not sane. */
    method RecalculateStats()
      requires Linked(mem, head, blocks)
      modifies this`usedBytes, this`freeBytes, this`allocationCount, this`freeBlockCount
      ensures B.Tiles(blocks, M.START, nextPage) && nextPage <= M.TOP ==> Counted()
    {
      var used, free, allocations, frees := 0, 0, 0, 0;
      var block, visited := head, 0;
      ghost var v := B.Visited(blocks);
      assert v[..0] == [];
      while block != 0 && visited < B.LIMIT && Sane(mem, block)
        invariant 0 <= visited <= |blocks| && visited <= B.LIMIT && block == AddrAt(blocks, visited)
        invariant used == B.Bytes(v[..visited], true) && free == B.Bytes(v[..visited], false)
        invariant allocations == B.Count(v[..visited], true) && frees == B.Count(v[..visited], false)
        decreases B.LIMIT - visited
      {
        assert HeaderAt(mem, blocks, visited);
        BytesSnoc(v, visited);
        if mem[block].used {
          used, allocations := used + mem[block].size, allocations + 1;
        } else {
          free, frees := free + mem[block].size, frees + 1;
        }
        block := mem[block].next;
        visited := visited + 1;
      }
      if B.Tiles(blocks, M.START, nextPage) && nextPage <= M.TOP && visited < |v| {
        SaneAt(mem, head, blocks, nextPage, visited);
      }
      assert v[..|v|] == v;
      usedBytes, freeBytes, allocationCount, freeBlockCount := used, free, allocations, frees;
    }

    /** `heap_find_block_for_pointer`; 0 when there is none. */
    method FindBlockForPointer(p: nat) returns (block: nat)
      requires Valid()
      ensures match M.Find(Machine(), p)
              case None => block == 0
              case Some(i) => block == blocks[i].addr
    {
      if p == 0 || !initialized || p < M.START + B.HEADER || p >= M.TOP {
        return 0;
      }
      block := head;
      var visited := 0;
      NonNull(blocks, nextPage);
      while block != 0 && visited < B.LIMIT
        invariant 0 <= visited <= |blocks| && block == AddrAt(blocks, visited)
        invariant B.FindPayload(blocks, p) == B.FindPayload(blocks, p, visited)
        decreases B.LIMIT - visited
      {
        SaneAt(mem, head, blocks, nextPage, visited);
        if !Sane(mem, block) {
          break;
        }
        if block + B.HEADER == p {
          return;
        }
        block := mem[block].next;
        visited := visited + 1;
      }
      return 0;
    }

    /** `heap_merge_free_blocks`. */
    method MergeFreeBlocks()
      requires Linked(mem, head, blocks) && B.Tiles(blocks, M.START, nextPage) && nextPage <= M.TOP
      modifies this`mem, this`blocks
      ensures blocks == B.MergeFrom(old(blocks), 0)
      ensures Linked(mem, head, blocks)
    {
      var block, visited := head, 0;
      NonNull(blocks, nextPage);
      if blocks != [] {
        SaneAt(mem, head, blocks, nextPage, 0);
      }
      while block != 0 && mem[block].next != 0 && visited < B.LIMIT
        invariant Linked(mem, head, blocks) && B.Tiles(blocks, M.START, nextPage)
        invariant 0 <= visited <= B.LIMIT && visited <= |blocks|
        invariant block == AddrAt(blocks, visited)
        invariant block != 0 ==> block in mem && mem[block].next == AddrAt(blocks, visited + 1)
        invariant B.MergeFrom(blocks, visited) == B.MergeFrom(old(blocks), 0)
        invariant forall i :: 0 <= i < |blocks| ==> blocks[i].addr != 0
        decreases |blocks| - visited
      {
        SaneAt(mem, head, blocks, nextPage, visited);
        SaneAt(mem, head, blocks, nextPage, visited + 1);
        var next := mem[block].next;
        if !Sane(mem, block) || !Sane(mem, next) {
          return;
        }
        if !mem[block].used && !mem[next].used && block + B.HEADER + mem[block].size == next {
          LinkedJoin(mem, head, blocks, M.START, nextPage, visited);
          B.JoinKeeps(blocks, M.START, nextPage, visited);
          mem := mem[block := mem[block].(size := mem[block].size + B.HEADER + mem[next].size, next := mem[next].next)];
          blocks := blocks[..visited] + [B.Join(blocks[visited], blocks[visited + 1])] + blocks[visited + 2..];
          assert HeaderAt(mem, blocks, visited);
        } else {
          block := next;
          visited := visited + 1;
        }
        NonNull(blocks, nextPage);
      }
    }

    /** Allocates one frame and maps it at `nextPage`; 0, with the frame returned, on failure. */
    method MapNewPage(ghost v: V.State, ghost p: P.State) returns (page: nat)
      requires Shaped() && v == mapper.Snapshot() && p == mapper.frames.Snapshot() && G.Ready(v, p)
      requires nextPage < U32
      modifies mapper, mapper.directory, mapper.frames, mapper.frames.freeStack
      ensures Shaped() && Turn(v, p, nextPage, mapper.Snapshot(), mapper.frames.Snapshot(), page)
    {
      hide V.MapPage, P.Alloc, P.Free, V.Valid, P.Valid, V.TablesReserved;
      G.AllocReady(v, p);
      page := mapper.frames.AllocPage();
      if page != 0 {
        G.StepReady(v, p, nextPage);
        var mapped := mapper.Map(nextPage, page, 2);
        if !mapped {
          mapper.frames.FreePage(page);
          page := 0;
        }
      }
    }

    /** Writes the header of the page at `nextPage` and links it behind the previous one. */
    method LinkNewPage(ghost start: nat, i: nat)
      requires start % 8 == 0 && nextPage == start + i * PAGE
      requires Linked(mem, head, blocks) && B.Tiles(blocks, M.START, start)
      requires Linked(mem, AddrAt(B.PageBlocks(start, i), 0), B.PageBlocks(start, i))
      modifies this`mem
      ensures Linked(mem, head, blocks)
      ensures Linked(mem, start, B.PageBlocks(start, i + 1))
    {
      LinkedPage(mem, start, i);
      mem := mem[nextPage := Header(MAGIC, PAGE - B.HEADER, false, 0)];
      if i > 0 {
        mem := mem[nextPage - PAGE := mem[nextPage - PAGE].(next := nextPage)];
      }
      LinkedBelow(old(mem), mem, head, blocks, M.START, start);
    }

    /** One turn of the page loop of `heap_grow`, for page `i` of the growth. */
    method GrowOnePage(ghost start: nat, i: nat, ghost v: V.State, ghost p: P.State) returns (page: nat)
      requires Shaped() && v == mapper.Snapshot() && p == mapper.frames.Snapshot() && G.Ready(v, p)
      requires start % 8 == 0 && nextPage == start + i * PAGE && nextPage < U32
      requires Linked(mem, head, blocks) && B.Tiles(blocks, M.START, start)
      requires Linked(mem, AddrAt(B.PageBlocks(start, i), 0), B.PageBlocks(start, i))
      modifies this`mem, this`nextPage, this`totalBytes
      modifies mapper, mapper.directory, mapper.frames, mapper.frames.freeStack
      ensures Shaped() && Turn(v, p, old(nextPage), mapper.Snapshot(), mapper.frames.Snapshot(), page)
      ensures Linked(mem, head, blocks)
      ensures page != 0 ==>
        && nextPage == old(nextPage) + PAGE && totalBytes == old(totalBytes) + PAGE
        && Linked(mem, start, B.PageBlocks(start, i + 1))
    {
      hide G.Ready, B.Tiles, Linked, B.PageBlocks, Turn;
      page := MapNewPage(v, p);
      if page != 0 {
        LinkNewPage(start, i);
        nextPage := nextPage + PAGE;
        totalBytes := totalBytes + PAGE;
      }
    }

    /** The page loop of `heap_grow`: one frame, one mapping and one linked header a page. */
    method MapNewPages(required: nat) returns (ok: bool, frames: seq<nat>)
      requires Shaped() && G.Ready(mapper.Snapshot(), mapper.frames.Snapshot())
      requires M.START <= nextPage && nextPage % 8 == 0 && nextPage + required * PAGE <= M.TOP
      requires Linked(mem, head, blocks) && B.Tiles(blocks, M.START, nextPage)
      modifies this`mem, this`nextPage, this`totalBytes
      modifies mapper, mapper.directory, mapper.frames, mapper.frames.freeStack
      ensures Shaped()
      ensures G.Mapped(mapper.Snapshot(), mapper.frames.Snapshot(), frames, ok)
              == G.MapPages(old(mapper.Snapshot()), old(mapper.frames.Snapshot()), old(nextPage), required)
      ensures Linked(mem, head, blocks)
      ensures ok ==>
        && nextPage == old(nextPage) + required * PAGE && totalBytes == old(totalBytes) + required * PAGE
        && Linked(mem, AddrAt(B.PageBlocks(old(nextPage), required), 0), B.PageBlocks(old(nextPage), required))
    {
      hide V.PageMapper.Snapshot, P.FrameAllocator.Snapshot, G.Ready, G.MapPages, Behind, Turn, B.Tiles, Linked,
        B.PageBlocks;
      frames := [];
      ghost var start, bytes := nextPage, totalBytes;
      ghost var v, p := mapper.Snapshot(), mapper.frames.Snapshot();
      ghost var all := G.MapPages(v, p, start, required);
      LinkedNothing(mem, start);
      BehindNothing(all);
      var i := 0;
      while i < required
        invariant 0 <= i <= required
        invariant nextPage == start + i * PAGE && totalBytes == bytes + i * PAGE
        invariant Shaped() && v == mapper.Snapshot() && p == mapper.frames.Snapshot()
        invariant G.Ready(v, p) && all == Behind(frames, G.MapPages(v, p, start + i * PAGE, required - i))
        invariant Linked(mem, head, blocks)
        invariant Linked(mem, AddrAt(B.PageBlocks(start, i), 0), B.PageBlocks(start, i))
      {
        BehindStep(frames, v, p, start + i * PAGE, required - i);
        var page := GrowOnePage(start, i, v, p);
        v, p := mapper.Snapshot(), mapper.frames.Snapshot();
        if page == 0 {
          return false, frames;
        }
        frames := frames + [page];
        i := i + 1;
      }
      BehindEnd(frames, v, p, nextPage);
      return true, frames;
    }

    /** Claims `required` pages above the heap, or undoes everything. */
    method ExtendRange(required: nat) returns (ok: bool)
      requires Shaped() && G.Ready(mapper.Snapshot(), mapper.frames.Snapshot())
      requires M.START <= nextPage && nextPage % 8 == 0 && nextPage + required * PAGE <= M.TOP
      requires Linked(mem, head, blocks) && B.Tiles(blocks, M.START, nextPage)
      modifies this`mem, this`nextPage, this`totalBytes
      modifies mapper, mapper.directory, mapper.frames, mapper.frames.freeStack
      ensures Shaped() && Linked(mem, head, blocks)
      ensures var m := M.Extend(old(mapper.Snapshot()), old(mapper.frames.Snapshot()), old(nextPage), required);
        mapper.Snapshot() == m.vmm && mapper.frames.Snapshot() == m.pmm && ok == m.ok
      ensures nextPage == old(nextPage) + (if ok then required * PAGE else 0)
      ensures totalBytes == old(totalBytes) + (if ok then required * PAGE else 0)
      ensures ok ==>
        Linked(mem, AddrAt(B.PageBlocks(old(nextPage), required), 0), B.PageBlocks(old(nextPage), required))
    {
      hide G.Ready, B.Tiles, G.MapPages, G.Rollback, Linked, B.PageBlocks;
      var start, bytes := nextPage, totalBytes;
      G.RollbackPossible(mapper.Snapshot(), mapper.frames.Snapshot(), start, required);
      var frames: seq<nat>;
      ok, frames := MapNewPages(required);
      if !ok {
        RollbackGrowth(start, frames);
        nextPage, totalBytes := start, bytes;
      }
    }

    /** Links the `n` pages from `start` to the list, coalesces and recounts. */
    method AbsorbPages(start: nat, n: nat)
      requires n > 0 && Linked(mem, head, blocks) && B.Tiles(blocks, M.START, start) && start % 8 == 0
      requires Linked(mem, start, B.PageBlocks(start, n)) && nextPage == start + n * PAGE <= M.TOP
      modifies this`mem, this`head, this`blocks
      modifies this`usedBytes, this`freeBytes, this`allocationCount, this`freeBlockCount
      ensures blocks == B.Grow(old(blocks), start, n)
      ensures Linked(mem, head, blocks) && Counted()
    {
      hide Linked, B.Tiles, CountsOf, B.MergeFrom;
      B.GrowKeeps(blocks, M.START, start, n);
      AttachPages(start, n);
      MergeFreeBlocks();
      RecalculateStats();
    }

    /** `heap_grow` once the page count is known to be acceptable. */
    method GrowBy(required: nat) returns (ok: bool)
      requires Shaped() && G.Ready(mapper.Snapshot(), mapper.frames.Snapshot()) && required > 0
      requires M.START <= nextPage && nextPage % 8 == 0 && nextPage + required * PAGE <= M.TOP
      requires Linked(mem, head, blocks) && B.Tiles(blocks, M.START, nextPage)
      modifies this`mem, this`head, this`blocks, this`nextPage, this`totalBytes
      modifies this`usedBytes, this`freeBytes, this`allocationCount, this`freeBlockCount
      modifies mapper, mapper.directory, mapper.frames, mapper.frames.freeStack
      ensures Shaped() && Linked(mem, head, blocks)
      ensures var m := M.Extend(old(mapper.Snapshot()), old(mapper.frames.Snapshot()), old(nextPage), required);
        mapper.Snapshot() == m.vmm && mapper.frames.Snapshot() == m.pmm && ok == m.ok
      ensures nextPage == old(nextPage) + (if ok then required * PAGE else 0)
      ensures totalBytes == old(totalBytes) + (if ok then required * PAGE else 0)
      ensures blocks == if ok then B.Grow(old(blocks), old(nextPage), required) else old(blocks)
      ensures ok || old(Counted()) ==> Counted()
    {
      hide V.PageMapper.Snapshot, P.FrameAllocator.Snapshot, G.Ready, B.Tiles, M.Extend, B.Grow, Linked, CountsOf;
      var start := nextPage;
      ok := ExtendRange(required);
      if ok {
        AbsorbPages(start, required);
      }
    }

    /** `heap_grow`. */
    method Grow(minimum: nat) returns (ok: bool)
      requires Shaped() && M.Valid(Machine()) && Linked(mem, head, blocks)
      modifies this`mem, this`head, this`blocks, this`nextPage, this`totalBytes, this`failedGrows
      modifies this`usedBytes, this`freeBytes, this`allocationCount, this`freeBlockCount
      modifies mapper, mapper.directory, mapper.frames, mapper.frames.freeStack
      ensures Shaped() && Linked(mem, head, blocks)
      ensures (Machine(), ok) == M.Grow(old(Machine()), minimum)
      ensures totalBytes - nextPage == old(totalBytes) - old(nextPage)
      ensures ok || old(Counted()) ==> Counted()
    {
      hide G.Ready, G.ViewOf, M.Valid, B.Tiles, B.Canonical, M.PagesFor, M.Extend, B.Grow, Linked, CountsOf;
      M.ValidParts(Machine());
      var required := M.PagesFor(minimum);
      ok := false;
      if required <= M.MAX_GROW && nextPage + required * PAGE <= M.TOP {
        ok := GrowBy(required);
      }
      if !ok {
        failedGrows := failedGrows + 1;
      }
    }

    /** `heap_initialize`: the heap range must not be mapped yet. */
    method Initialize()
      requires Shaped() && Empty() && G.Ready(mapper.Snapshot(), mapper.frames.Snapshot())
      requires forall k :: M.FIRST_PAGE <= k < M.TOP_PAGE ==>
        k !in G.ViewOf(mapper.Snapshot(), mapper.frames.Snapshot()).mapping
      modifies this, mapper, mapper.directory, mapper.frames, mapper.frames.freeStack
      ensures Valid()
      ensures Machine() == M.Initialize(old(mapper.Snapshot()), old(mapper.frames.Snapshot()))
    {
      hide G.Ready, G.ViewOf, M.Valid, M.Grow;
      M.EmptyValid(mapper.Snapshot(), mapper.frames.Snapshot());
      M.InitializeValid(mapper.Snapshot(), mapper.frames.Snapshot());
      var grown := Grow(PAGE - B.HEADER);
      if grown {
        initialized := true;
      }
    }

    /** `heap_split_block`, then the used mark: the block at index `i` serves `request`. */
    method TakeBlock(block: nat, ghost i: nat, request: nat)
      requires Linked(mem, head, blocks) && B.Tiles(blocks, M.START, nextPage) && nextPage <= M.TOP
      requires i < |blocks| && block == blocks[i].addr
      modifies this`mem, this`blocks
      ensures Linked(mem, head, blocks) && blocks == B.Take(old(blocks), i, request)
    {
      SaneAt(mem, head, blocks, nextPage, i);
      var size := mem[block].size;
      ghost var memory, list := mem, blocks;
      if size > request + B.HEADER + B.MIN_SPLIT {
        var remainder := block + B.HEADER + request;
        mem := mem[remainder := Header(MAGIC, size - request - B.HEADER, false, mem[block].next)];
        mem := mem[block := mem[block].(size := request, next := remainder)];
        LinkedSplit(memory, head, list, M.START, nextPage, i, request, true);
      } else {
        LinkedMark(memory, head, list, M.START, nextPage, i, true);
      }
      mem := mem[block := mem[block].(used := true)];
      blocks := B.Take(blocks, i, request);
      B.TakeIsReplace(list, i, request);
      hide B.Tiles, Linked;
      if size > request + B.HEADER + B.MIN_SPLIT {
        var remainder: nat := block + B.HEADER + request;
        var once: map<nat, Header> :=
          memory[remainder := Header(MAGIC, size - request - B.HEADER, false, NextOf(list, i))];
        assert mem == once[block := Header(MAGIC, request, true, remainder)];
      }
    }

    /** Takes the block at index `i` for `request` and recounts. */
    method Serve(block: nat, ghost i: nat, request: nat)
      requires Linked(mem, head, blocks) && B.Tiles(blocks, M.START, nextPage) && nextPage <= M.TOP
      requires i < |blocks| && block == blocks[i].addr
      modifies this`mem, this`blocks
      modifies this`usedBytes, this`freeBytes, this`allocationCount, this`freeBlockCount
      ensures blocks == B.Take(old(blocks), i, request) && Linked(mem, head, blocks)
      ensures B.Tiles(blocks, M.START, nextPage) ==> Counted()
    {
      hide B.Tiles, Linked, B.Take, CountsOf;
      TakeBlock(block, i, request);
      RecalculateStats();
    }

    /** `kmalloc`; 0 on failure. */
    method Kmalloc(size: nat) returns (p: nat)
      requires Valid() && size < U32
      modifies this, mapper, mapper.directory, mapper.frames, mapper.frames.freeStack
      ensures Shaped() && M.Outcome(Machine(), p) == M.Kmalloc(old(Machine()), size)
      ensures M.Harmless(old(Machine()), size) ==> Valid()
      decreases M.TOP - nextPage
    {
      hide M.Valid, M.Grow, G.Ready, B.Tiles, B.Canonical, Linked, CountsOf, B.Take, M.Harmless;
      M.ValidParts(Machine());
      M.KmallocWellFormedExactly(Machine(), size);
      p := 0;
      if initialized && size != 0 {
        var request := M.AlignRequest(size);
        var found, block, i := FindFit(request);
        if found {
          Serve(block, i, request);
          p := block + B.HEADER;
          if M.Valid(Machine()) {
            M.ValidParts(Machine());
          }
        } else {
          M.GrowFacts(Machine(), request);
          var grown := Grow(request);
          if grown {
            M.HarmlessRetry(Machine(), size);
            p := Kmalloc(request);
          } else {
            failedAllocations := failedAllocations + 1;
          }
        }
      } else {
        failedAllocations := failedAllocations + 1;
      }
    }

    /** The search loop of `kmalloc`. */
    method FindFit(request: nat) returns (found: bool, block: nat, ghost i: nat)
      requires Valid()
      ensures found == B.FirstFit(blocks, request).Some?
      ensures found ==> i == B.FirstFit(blocks, request).value && block == blocks[i].addr
    {
      M.ValidParts(Machine());
      NonNull(blocks, nextPage);
      hide M.Valid;
      block := head;
      var visited := 0;
      while block != 0 && visited < B.LIMIT
        invariant 0 <= visited <= |blocks| && block == AddrAt(blocks, visited)
        invariant B.FirstFit(blocks, request) == B.FirstFit(blocks, request, visited)
        decreases B.LIMIT - visited
      {
        SaneAt(mem, head, blocks, nextPage, visited);
        if !Sane(mem, block) {
          assert false;
        }
        if !mem[block].used && mem[block].size >= request {
          return true, block, visited;
        }
        block := mem[block].next;
        visited := visited + 1;
      }
      return false, 0, 0;
    }

    /** `kfree`. */
    method Kfree(p: nat)
      requires Valid()
      modifies this
      ensures Valid() && Machine() == M.Kfree(old(Machine()), p)
    {
      hide M.Valid, G.Ready, B.Tiles, B.Canonical, Linked, CountsOf, B.Release;
      M.ValidParts(Machine());
      M.KfreeExact(Machine(), p);
      if p == 0 {
        return;
      }
      var block := FindBlockForPointer(p);
      NonNull(blocks, nextPage);
      if block == 0 {
        invalidFrees := invalidFrees + 1;
        return;
      }
      ghost var i := M.Find(Machine(), p).value;
      SaneAt(mem, head, blocks, nextPage, i);
      if !mem[block].used {
        doubleFrees := doubleFrees + 1;
        return;
      }
      successfulFrees := successfulFrees + 1;
      ReleaseBlock(block, i);
    }

    /** Marks the block at index `i` free, coalesces and recounts. */
    method ReleaseBlock(block: nat, ghost i: nat)
      requires Linked(mem, head, blocks) && B.Tiles(blocks, M.START, nextPage) && nextPage <= M.TOP
      requires i < |blocks| && block == blocks[i].addr && blocks[i].used
      modifies this`mem, this`blocks
      modifies this`usedBytes, this`freeBytes, this`allocationCount, this`freeBlockCount
      ensures blocks == B.Release(old(blocks), i) && Linked(mem, head, blocks) && Counted()
    {
      hide B.Tiles, B.Canonical, Linked, CountsOf, B.MergeFrom;
      LinkedMark(mem, head, blocks, M.START, nextPage, i, false);
      B.MarkTiles(blocks, M.START, nextPage, i, false);
      B.ReleaseKeeps(blocks, M.START, nextPage, i);
      mem := mem[block := mem[block].(used := false)];
      blocks := blocks[i := blocks[i].(used := false)];
      MergeFreeBlocks();
      RecalculateStats();
    }

    /** The block walk of `heap_audit`: issues found and the bytes counted. */
    method AuditBlocks() returns (issues: int, used: int, free: int)
      requires Linked(mem, head, blocks) && B.Tiles(blocks, M.START, nextPage) && nextPage <= M.TOP
      ensures issues == if |blocks| > B.LIMIT then 1 else 0
      ensures used == B.Bytes(B.Visited(blocks), true) && free == B.Bytes(B.Visited(blocks), false)
    {
      issues, used, free := 0, 0, 0;
      var block, previous, visited := head, 0, 0;
      ghost var v := B.Visited(blocks);
      assert v[..0] == [];
      NonNull(blocks, nextPage);
      while block != 0
        invariant 0 <= visited <= |v| && block == AddrAt(blocks, visited) && issues == 0
        invariant previous == if visited == 0 then 0 else blocks[visited - 1].addr
        invariant used == B.Bytes(v[..visited], true) && free == B.Bytes(v[..visited], false)
        decreases B.LIMIT - visited
      {
        if visited >= B.LIMIT {
          issues := issues + 1;
          break;
        }
        SaneAt(mem, head, blocks, nextPage, visited);
        if visited > 0 {
          B.TilesApart(blocks, M.START, nextPage, visited - 1, visited);
        }
        if !(M.START <= block < M.TOP) {
          issues := issues + 1;
          break;
        }
        if block % 8 != 0 {
          issues := issues + 1;
        }
        if mem[block].magic != MAGIC {
          issues := issues + 1;
          break;
        }
        if mem[block].size == 0 || block + B.HEADER + mem[block].size - 1 >= M.TOP {
          issues := issues + 1;
          break;
        }
        if previous != 0 && block <= previous {
          issues := issues + 1;
          break;
        }
        BytesSnoc(v, visited);
        if mem[block].used {
          used := used + mem[block].size;
        } else {
          free := free + mem[block].size;
        }
        previous := block;
        block := mem[block].next;
        visited := visited + 1;
      }
      assert v[..|v|] == v;
    }

    /** The page walk of `heap_audit`: pages of the heap range that are not mapped. */
    method AuditPages() returns (issues: int)
      requires Shaped() && M.Valid(Machine())
      ensures issues == 0
    {
      hide M.Valid, V.Mapping, V.Valid, V.TablesReserved;
      issues := 0;
      var address := M.START;
      while address < nextPage
        invariant M.START <= address && issues == 0
      {
        PageIsMapped(Machine(), address);
        var mapped := mapper.IsMapped(address);
        if !mapped {
          issues := issues + 1;
        }
        address := address + PAGE;
      }
    }

    /** `heap_audit`: in every well-formed heap the only possible issue is a list longer
        than the walk limit. */
    method Audit() returns (issues: int)
      requires Valid()
      ensures issues == if !initialized || |blocks| > B.LIMIT then 1 else 0
    {
      hide M.Valid, B.Tiles, B.Canonical, Linked, G.Ready;
      if !initialized {
        return 1;
      }
      M.ValidParts(Machine());
      var used, free;
      issues, used, free := AuditBlocks();
      var unmapped := AuditPages();
      issues := issues + unmapped;
      if used != usedBytes {
        issues := issues + 1;
      }
      if free != freeBytes {
        issues := issues + 1;
      }
    }

    /** Links the fresh pages behind the last block, or makes them the list. */
    method AttachPages(start: nat, n: nat)
      requires n > 0 && Linked(mem, head, blocks) && B.Tiles(blocks, M.START, start) && start % 8 == 0
      requires Linked(mem, start, B.PageBlocks(start, n)) && nextPage == start + n * PAGE
      modifies this`mem, this`head, this`blocks
      ensures blocks == old(blocks) + B.PageBlocks(start, n)
      ensures Linked(mem, head, blocks) && B.Tiles(blocks, M.START, nextPage)
    {
      hide Linked, HeaderAt, B.Tiles;
      ghost var pages := B.PageBlocks(start, n);
      B.PageBlocksTile(start, n);
      B.TilesConcat(blocks, pages, M.START, start, nextPage);
      LinkedHead(mem, head, blocks, start);
      if head == 0 {
        head := start;
        assert blocks + pages == pages;
      } else {
        LinkedAppend(mem, head, blocks, pages, M.START, start, nextPage);
        var last := FindLastBlock(start);
        assert last in mem by { HeaderHeld(mem, blocks, |blocks| - 1); }
        mem := mem[last := mem[last].(next := start)];
      }
      blocks := blocks + pages;
    }
  }

  lemma LinkedNothing(mem: map<nat, Header>, start: nat)
    ensures Linked(mem, AddrAt(B.PageBlocks(start, 0), 0), B.PageBlocks(start, 0))
  {
  }

  lemma BehindNothing(m: G.Mapped)
    ensures Behind([], m) == m
  {
  }

  lemma BehindEnd(frames: seq<nat>, v: V.State, p: P.State, va: nat)
    requires G.Ready(v, p) && va <= U32
    ensures Behind(frames, G.MapPages(v, p, va, 0)) == G.Mapped(v, p, frames, true)
  {
    assert frames + [] == frames;
  }

  /** One page was allocated and mapped at `va`, or the attempt failed and was undone. */
  ghost predicate Turn(v: V.State, p: P.State, va: nat, v': V.State, p': P.State, page: nat)
    requires G.Ready(v, p) && va < U32
  {
    var a := P.Alloc(p);
    if a.page == 0 then page == 0 && v' == v && p' == a.state
    else
      G.Ready(v, a.state)
      && var m := V.MapPage(v, a.state, va, a.page, 2);
         v' == m.vmm
         && if m.ok then page == a.page && p' == m.pmm && G.Ready(v', p')
            else page == 0 && p' == P.Free(m.pmm, a.page)
  }

  lemma PageIsMapped(s: M.State, address: nat)
    requires M.Valid(s) && M.START <= address < s.next
    ensures address < U32 && G.Ready(s.vmm, s.pmm) && address / PAGE in V.Mapping(s.vmm)
  {
    assert M.PageBacked(G.ViewOf(s.vmm, s.pmm), address / PAGE);
  }

  lemma BehindStep(frames: seq<nat>, v: V.State, p: P.State, va: nat, n: nat)
    requires G.Ready(v, p) && va + n * PAGE <= U32 && n > 0
    ensures forall v', p', page :: Turn(v, p, va, v', p', page) ==>
      var all := Behind(frames, G.MapPages(v, p, va, n));
      if page == 0 then all == G.Mapped(v', p', frames, false)
      else G.Ready(v', p') && all == Behind(frames + [page], G.MapPages(v', p', va + PAGE, n - 1))
  {
    hide V.Valid, P.Valid, V.TablesReserved, V.MapPage, P.Alloc, P.Free;
    assert frames + [] == frames;
  }

  function Behind(frames: seq<nat>, m: G.Mapped): G.Mapped {
    m.(frames := frames + m.frames)
  }

  lemma BytesSnoc(v: seq<B.Block>, k: nat)
    requires k < |v|
    ensures forall u :: B.Bytes(v[..k + 1], u) == B.Bytes(v[..k], u) + (if v[k].used == u then v[k].size else 0)
    ensures forall u :: B.Count(v[..k + 1], u) == B.Count(v[..k], u) + (if v[k].used == u then 1 else 0)
  {
    assert v[..k + 1] == v[..k] + [v[k]];
    forall u {
      BytesAppend(v[..k], v[k], u);
    }
  }

  lemma {:induction false} BytesAppend(v: seq<B.Block>, b: B.Block, u: bool)
    ensures B.Bytes(v + [b], u) == B.Bytes(v, u) + (if b.used == u then b.size else 0)
    ensures B.Count(v + [b], u) == B.Count(v, u) + (if b.used == u then 1 else 0)
  {
    if v == [] {
      assert v + [b] == [b];
    } else {
      BytesAppend(v[1..], b, u);
      assert (v + [b])[1..] == v[1..] + [b];
    }
  }
}
