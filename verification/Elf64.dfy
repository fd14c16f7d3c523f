/** The ELF64 loader behind exec and spawn: which files it accepts and what it stages. */
module Elf64 {
  import opened MachineWords
  import opened UserLayout64
  import opened Wrappers

  const FILE_MAX: nat := 65536
  const HEADER_BYTES: nat := 64
  const SEGMENT_BYTES: nat := 56

  /** The little-endian value of the `n` bytes at `offset`. */
  function Le(file: seq<nat>, offset: nat, n: nat): nat
    requires offset + n <= |file|
    decreases n
  {
    if n == 0 then 0 else file[offset] + 256 * Le(file, offset + 1, n - 1)
  }

  function EntryOf(file: seq<nat>): nat requires |file| >= HEADER_BYTES { Le(file, 24, 8) }
  function SegmentsAt(file: seq<nat>): nat requires |file| >= HEADER_BYTES { Le(file, 32, 8) }
  function SegmentCount(file: seq<nat>): nat requires |file| >= HEADER_BYTES { Le(file, 56, 2) }

  /** `x86_64_syscall_image_range_fits`. */
  predicate Fits(offset: nat, size: nat, total: nat) { offset <= total && size <= total - offset }

  /** The header checks. */
  predicate HeaderOk(file: seq<nat>) {
    && HEADER_BYTES <= |file| <= FILE_MAX
    && file[..7] == [0x7F, 'E' as nat, 'L' as nat, 'F' as nat, 2, 1, 1]
    && Le(file, 16, 2) == 2 && Le(file, 18, 2) == 0x3E && Le(file, 20, 4) == 1
    && Le(file, 52, 2) == HEADER_BYTES && Le(file, 54, 2) == SEGMENT_BYTES
    && 0 < SegmentCount(file) <= 8
    && Fits(SegmentsAt(file), SEGMENT_BYTES * SegmentCount(file), |file|)
  }

  lemma HeaderSize(file: seq<nat>)
    requires HeaderOk(file)
    ensures |file| >= HEADER_BYTES
  {
  }

  datatype Segment = Segment(kind: nat, flags: nat, offset: nat, vaddr: nat, filesz: nat, memsz: nat, align: nat) {
    predicate Loads() { kind == 1 && memsz != 0 }
    predicate Writes() { flags / 2 % 2 == 1 }
    predicate Executes() { flags % 2 == 1 }

    /** The checks a loaded segment must pass. */
    predicate Ok(total: nat) {
      && CODE_BASE <= vaddr && vaddr + memsz <= CODE_BASE + IMAGE_MAX
      && align == PAGE && filesz <= memsz && Fits(offset, filesz, total)
    }

    /** Byte `o` of the staged image comes from this segment's part of the file. */
    predicate Provides(o: nat) { Loads() && vaddr <= CODE_BASE + o < vaddr + filesz }

    /** The segment's memory overlaps page `p` of the image. */
    predicate Touches(p: nat) { vaddr < CODE_BASE + (p + 1) * PAGE && CODE_BASE + p * PAGE < vaddr + memsz }
  }

  /** Program header `i`. */
  function SegmentAt(file: seq<nat>, i: nat): Segment
    requires HeaderOk(file) && i < SegmentCount(file)
  {
    var o := SegmentsAt(file) + i * SEGMENT_BYTES;
    Segment(Le(file, o, 4), Le(file, o + 4, 4), Le(file, o + 8, 8), Le(file, o + 16, 8),
            Le(file, o + 32, 8), Le(file, o + 40, 8), Le(file, o + 48, 8))
  }

  /** The test on a segment as it is computed, in wrapping 64-bit arithmetic. */
  predicate Checked(g: Segment, total: nat) {
    var end := (g.vaddr + g.memsz) % U64;
    && !(end < g.vaddr) && g.vaddr >= CODE_BASE && end <= CODE_BASE + IMAGE_MAX
    && g.align == PAGE && g.filesz <= g.memsz && Fits(g.offset, g.filesz, total)
  }

  /** For word-sized fields the wrapping test is the plain one. */
  lemma CheckedIsOk(g: Segment, total: nat)
    requires g.vaddr < U64 && 0 < g.memsz < U64
    ensures Checked(g, total) <==> g.Ok(total)
  {
    if g.vaddr + g.memsz >= U64 {
      assert (g.vaddr + g.memsz) % U64 == g.vaddr + g.memsz - U64;
    }
  }

  predicate Bytes(file: seq<nat>) { forall i :: 0 <= i < |file| ==> file[i] < 256 }

  function Power256(n: nat): nat { if n == 0 then 1 else 256 * Power256(n - 1) }

  lemma {:induction false} LeBound(file: seq<nat>, offset: nat, n: nat)
    requires Bytes(file) && offset + n <= |file|
    ensures Le(file, offset, n) < Power256(n)
    decreases n
  {
    if n > 0 {
      LeBound(file, offset + 1, n - 1);
    }
  }

  lemma Word64(file: seq<nat>, offset: nat)
    requires Bytes(file) && offset + 8 <= |file|
    ensures Le(file, offset, 8) < U64
  {
    LeBound(file, offset, 8);
    assert Power256(8) == 256 * (256 * (256 * (256 * (256 * (256 * (256 * (256 * Power256(0))))))));
  }

  // ----- what an accepted file means

  ghost predicate EntryCovered(file: seq<nat>, n: nat)
    requires HeaderOk(file) && n <= SegmentCount(file)
  {
    exists i :: 0 <= i < n && SegmentAt(file, i).Loads() && SegmentAt(file, i).Executes()
      && SegmentAt(file, i).vaddr <= EntryOf(file) < SegmentAt(file, i).vaddr + SegmentAt(file, i).memsz
  }

  ghost predicate SegmentsOk(file: seq<nat>, n: nat)
    requires HeaderOk(file) && n <= SegmentCount(file)
  {
    forall i :: 0 <= i < n && SegmentAt(file, i).Loads() ==> SegmentAt(file, i).Ok(|file|)
  }

  /** The files the loader accepts. */
  ghost predicate Accepted(file: seq<nat>) {
    HeaderOk(file) && SegmentsOk(file, SegmentCount(file)) && EntryCovered(file, SegmentCount(file))
  }

  /** The file byte staged at `o` by the first `n` segments: the last one to provide it wins. */
  function FileByte(file: seq<nat>, n: nat, o: nat): Option<nat>
    requires HeaderOk(file) && n <= SegmentCount(file)
    decreases n
  {
    if n == 0 then None
    else
      var g := SegmentAt(file, n - 1);
      if g.Provides(o) && g.Ok(|file|) then Some(file[g.offset + (CODE_BASE + o - g.vaddr)])
      else FileByte(file, n - 1, o)
  }

  function Staged(file: seq<nat>, n: nat): (bytes: seq<nat>)
    requires HeaderOk(file) && n <= SegmentCount(file)
    ensures |bytes| == IMAGE_MAX
  {
    hide HeaderOk, FileByte, SegmentCount;
    seq(IMAGE_MAX, o requires 0 <= o < IMAGE_MAX && HeaderOk(file) && n <= SegmentCount(file) =>
      OrZero(FileByte(file, n, o)))
  }

  function OrZero(b: Option<nat>): nat {
    match b case Some(v) => v case None => 0
  }

  /** The end of the image: past the last byte any segment occupies. */
  function ImageEnd(file: seq<nat>, n: nat): nat
    requires HeaderOk(file) && n <= SegmentCount(file)
    decreases n
  {
    if n == 0 then 0
    else
      var g, rest := SegmentAt(file, n - 1), ImageEnd(file, n - 1);
      if g.Loads() && g.vaddr + g.memsz > CODE_BASE + rest then g.vaddr + g.memsz - CODE_BASE else rest
  }

  /** The pages some writable segment touches. */
  function WritablePages(file: seq<nat>, n: nat): set<nat>
    requires HeaderOk(file) && n <= SegmentCount(file)
    decreases n
  {
    if n == 0 then {}
    else WritablePages(file, n - 1) + PagesOf(SegmentAt(file, n - 1))
  }

  /** The pages a segment marks writable. */
  function PagesOf(g: Segment): set<nat> {
    set p | 0 <= p < 4 && g.Loads() && g.Writes() && g.Touches(p)
  }

  /** A staged byte is the file byte of the last segment providing it. */
  lemma {:induction false} LastWins(file: seq<nat>, n: nat, o: nat, i: nat)
    requires HeaderOk(file) && i < n <= SegmentCount(file) && SegmentsOk(file, n)
    requires SegmentAt(file, i).Provides(o) && forall j :: i < j < n ==> !SegmentAt(file, j).Provides(o)
    ensures SegmentAt(file, i).Ok(|file|)
    ensures FileByte(file, n, o) == Some(file[SegmentAt(file, i).offset + (CODE_BASE + o - SegmentAt(file, i).vaddr)])
    decreases n
  {
    hide HeaderOk, SegmentAt;
    var g := SegmentAt(file, i);
    assert g.Loads() ==> g.Ok(|file|);
    if i < n - 1 {
      LastWins(file, n - 1, o, i);
    }
  }

  /** A byte no segment provides is not a file byte. */
  lemma {:induction false} NoneProvides(file: seq<nat>, n: nat, o: nat)
    requires HeaderOk(file) && n <= SegmentCount(file)
    requires forall j :: 0 <= j < n ==> !SegmentAt(file, j).Provides(o)
    ensures FileByte(file, n, o) == None
    decreases n
  {
    hide HeaderOk, SegmentAt;
    if n > 0 {
      NoneProvides(file, n - 1, o);
    }
  }

  lemma {:induction false} EndCovers(file: seq<nat>, n: nat, i: nat)
    requires HeaderOk(file) && i < n <= SegmentCount(file) && SegmentAt(file, i).Loads()
    ensures SegmentAt(file, i).vaddr + SegmentAt(file, i).memsz <= CODE_BASE + ImageEnd(file, n)
    decreases n
  {
    hide HeaderOk, SegmentAt;
    if i < n - 1 {
      EndCovers(file, n - 1, i);
    }
  }

  /** The end of the image is that of some segment. */
  lemma {:induction false} EndReached(file: seq<nat>, n: nat)
    requires HeaderOk(file) && n <= SegmentCount(file) && ImageEnd(file, n) > 0
    ensures
      exists i :: 0 <= i < n && SegmentAt(file, i).Loads()
        && SegmentAt(file, i).vaddr + SegmentAt(file, i).memsz == CODE_BASE + ImageEnd(file, n)
    decreases n
  {
    hide HeaderOk, SegmentAt;
    if n > 0 {
      var g := SegmentAt(file, n - 1);
      if !(g.Loads() && g.vaddr + g.memsz > CODE_BASE + ImageEnd(file, n - 1)) {
        EndReached(file, n - 1);
      }
    }
  }

  lemma {:induction false} EndBound(file: seq<nat>, n: nat)
    requires HeaderOk(file) && n <= SegmentCount(file) && SegmentsOk(file, n)
    ensures ImageEnd(file, n) <= IMAGE_MAX
    decreases n
  {
    hide HeaderOk, SegmentAt;
    if n > 0 {
      EndBound(file, n - 1);
      var g := SegmentAt(file, n - 1);
      assert g.Loads() ==> g.Ok(|file|);
    }
  }

  lemma {:induction false} WritableMeans(file: seq<nat>, n: nat, p: nat)
    requires HeaderOk(file) && n <= SegmentCount(file) && p < 4
    ensures p in WritablePages(file, n) <==>
      exists i :: 0 <= i < n && SegmentAt(file, i).Loads() && SegmentAt(file, i).Writes()
        && SegmentAt(file, i).Touches(p)
    decreases n
  {
    hide HeaderOk, SegmentAt;
    if n > 0 {
      WritableMeans(file, n - 1, p);
      var g := SegmentAt(file, n - 1);
    }
  }
}
