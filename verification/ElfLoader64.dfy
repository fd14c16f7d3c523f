/** The ELF64 loader as it runs: the staging pages and the fields of the dispatcher it fills. */
module ElfLoader64 {
  import opened MachineWords
  import opened UserLayout64
  import opened Wrappers
  import opened Elf64

  /** The staged bytes with one segment copied over them. */
  function Overlaid(staged: seq<nat>, file: seq<nat>, g: Segment): (r: seq<nat>)
    requires |staged| == IMAGE_MAX && g.Ok(|file|)
    ensures |r| == IMAGE_MAX
  {
    seq(IMAGE_MAX, o requires 0 <= o < IMAGE_MAX && g.Ok(|file|) && |staged| == IMAGE_MAX =>
      if g.vaddr <= CODE_BASE + o < g.vaddr + g.filesz then file[g.offset + (CODE_BASE + o - g.vaddr)] else staged[o])
  }

  lemma OverlaidIsStaged(file: seq<nat>, n: nat)
    requires HeaderOk(file) && n < SegmentCount(file) && SegmentAt(file, n).Loads() && SegmentAt(file, n).Ok(|file|)
    ensures Overlaid(Staged(file, n), file, SegmentAt(file, n)) == Staged(file, n + 1)
  {
    hide HeaderOk, SegmentAt, SegmentCount;
    var g := SegmentAt(file, n);
    forall o | 0 <= o < IMAGE_MAX ensures Overlaid(Staged(file, n), file, g)[o] == Staged(file, n + 1)[o] {
      assert FileByte(file, n + 1, o) ==
        if g.Provides(o) && g.Ok(|file|) then Some(file[g.offset + (CODE_BASE + o - g.vaddr)])
          else FileByte(file, n, o);
    }
  }

  lemma SkippedIsStaged(file: seq<nat>, n: nat)
    requires HeaderOk(file) && n < SegmentCount(file) && !SegmentAt(file, n).Loads()
    ensures Staged(file, n + 1) == Staged(file, n) && WritablePages(file, n + 1) == WritablePages(file, n)
  {
    hide HeaderOk, SegmentAt, SegmentCount;
    assert WritablePages(file, n) + {} == WritablePages(file, n);
    forall o | 0 <= o < IMAGE_MAX ensures Staged(file, n + 1)[o] == Staged(file, n)[o] {
      assert FileByte(file, n + 1, o) == FileByte(file, n, o);
    }
  }

  lemma NothingStaged(file: seq<nat>)
    requires HeaderOk(file)
    ensures Staged(file, 0) == seq(IMAGE_MAX, _ => 0)
  {
    hide HeaderOk, SegmentAt, SegmentCount;
  }

  /** The page loop's bounds are the pages the segment touches. */
  lemma TouchedPages(g: Segment, total: nat, p: nat)
    requires g.Ok(total) && g.memsz > 0
    ensures g.Touches(p) <==> (g.vaddr - CODE_BASE) / PAGE <= p <= (g.vaddr - CODE_BASE + g.memsz - 1) / PAGE
  {
  }

  class ExecState {
    const staging: array?<nat>
    var writable: set<nat>
    var bytes: nat
    var pages: nat
    var entry: nat
    var loaded: bool

    predicate Shaped() { staging != null ==> staging.Length == IMAGE_MAX }

    constructor (buffer: array?<nat>)
      requires buffer != null ==> buffer.Length == IMAGE_MAX
      ensures Shaped() && staging == buffer
    {
      staging := buffer;
      writable, bytes, pages, entry, loaded := {}, 0, 0, 0, false;
    }

    /** `x86_64_syscall_clear_user_image_pages`. */
    method ClearPages()
      requires Shaped() && staging != null
      modifies this, staging
      ensures staging[..] == seq(IMAGE_MAX, _ => 0) && writable == {} && bytes == 0 && pages == 0
    {
      for i := 0 to IMAGE_MAX
        invariant forall k :: 0 <= k < i ==> staging[k] == 0
      {
        staging[i] := 0;
      }
      writable, bytes, pages := {}, 0, 0;
    }

    /** Marks the pages of a writable segment. */
    method MarkPages(g: Segment, total: nat)
      requires g.Loads() && g.Ok(total)
      modifies this`writable
      ensures writable == old(writable) + Elf64.PagesOf(g)
    {
      hide Segment.Touches;
      var first, last := (g.vaddr - CODE_BASE) / PAGE, (g.vaddr - CODE_BASE + g.memsz - 1) / PAGE;
      var p := first;
      while p <= last
        invariant first <= p <= last + 1 && last < 4
        invariant forall k :: k in writable <==> k in old(writable) || (first <= k < p && g.Writes())
      {
        if g.Writes() {
          writable := writable + {p};
        }
        p := p + 1;
      }
      forall k | 0 <= k < 4 ensures g.Touches(k) <==> first <= k <= last {
        TouchedPages(g, total, k);
      }
    }

    /** Copies a segment's file bytes to their place in the staging pages. */
    method CopySegment(file: seq<nat>, g: Segment)
      requires Shaped() && staging != null && g.Loads() && g.Ok(|file|)
      modifies staging
      ensures staging[..] == Overlaid(old(staging[..]), file, g)
    {
      var start := g.vaddr - CODE_BASE;
      for k := 0 to g.filesz
        invariant forall o :: 0 <= o < IMAGE_MAX ==>
          staging[o] == if start <= o < start + k then file[g.offset + (o - start)] else old(staging[o])
      {
        staging[start + k] := file[g.offset + k];
      }
    }

    /** One program header: checked, its pages marked, its bytes copied. */
    method LoadSegment(file: seq<nat>, i: nat) returns (ok: bool)
      requires Shaped() && staging != null && Bytes(file) && HeaderOk(file) && i < SegmentCount(file)
      requires staging[..] == Staged(file, i) && writable == WritablePages(file, i)
      modifies this`writable, staging
      ensures ok <==> (SegmentAt(file, i).Loads() ==> SegmentAt(file, i).Ok(|file|))
      ensures ok ==> staging[..] == Staged(file, i + 1) && writable == WritablePages(file, i + 1)
    {
      hide HeaderOk, SegmentAt, SegmentCount, Staged, Overlaid, Checked, Bytes;
      var g := SegmentAt(file, i);
      if !g.Loads() {
        SkippedIsStaged(file, i);
        return true;
      }
      FieldsFit(file, i);
      CheckedIsOk(g, |file|);
      if !Checked(g, |file|) {
        return false;
      }
      MarkPages(g, |file|);
      CopySegment(file, g);
      OverlaidIsStaged(file, i);
      return true;
    }

    /** `x86_64_syscall_load_exec_elf`: it accepts exactly the accepted files, and then the
        staging pages, the page count, the writable pages and the entry are the file's. */
    method LoadElf(image: Option<seq<nat>>) returns (ok: bool)
      requires Shaped() && (image.Some? ==> Bytes(image.value))
      modifies this, staging
      ensures ok <==> staging != null && image.Some? && Accepted(image.value)
      ensures ok ==> staging[..] == Staged(image.value, SegmentCount(image.value))
      ensures ok ==> writable == WritablePages(image.value, SegmentCount(image.value))
      ensures ok ==> entry == EntryOf(image.value) && bytes == ImageEnd(image.value, SegmentCount(image.value))
      ensures ok ==> pages == (bytes + PAGE - 1) / PAGE && loaded
    {
      hide HeaderOk, SegmentAt, SegmentCount, Staged, WritablePages, ImageEnd, EntryOf, EntryCovered, SegmentsOk,
        Segment.Ok;
      if staging == null || image.None? || !HeaderOk(image.value) {
        return false;
      }
      var file := image.value;
      HeaderSize(file);
      ClearPages();
      NothingStaged(file);
      StartLoading(file);
      var loadSeen, entrySeen, imageBytes := false, false, 0;
      for i := 0 to SegmentCount(file)
        invariant staging[..] == Staged(file, i) && writable == WritablePages(file, i)
        invariant imageBytes == ImageEnd(file, i) && SegmentsOk(file, i)
        invariant entrySeen <==> EntryCovered(file, i)
        invariant entrySeen ==> loadSeen && imageBytes > 0
      {
        KeepLoading(file, i);
        var g := SegmentAt(file, i);
        var good := LoadSegment(file, i);
        if !good {
          NotAllOk(file, i);
          return false;
        }
        if g.Loads() {
          if g.vaddr <= EntryOf(file) < g.vaddr + g.memsz && g.Executes() {
            entrySeen := true;
          }
          if g.vaddr + g.memsz > CODE_BASE + imageBytes {
            imageBytes := g.vaddr + g.memsz - CODE_BASE;
          }
          loadSeen := true;
        }
      }
      EndBound(file, SegmentCount(file));
      if !loadSeen || !entrySeen || imageBytes == 0 || imageBytes > IMAGE_MAX {
        return false;
      }
      entry, bytes, pages, loaded := EntryOf(file), imageBytes, (imageBytes + PAGE - 1) / PAGE, true;
      return true;
    }
  }

  lemma StartLoading(file: seq<nat>)
    requires HeaderOk(file)
    ensures WritablePages(file, 0) == {} && ImageEnd(file, 0) == 0 && SegmentsOk(file, 0) && !EntryCovered(file, 0)
  {
    hide HeaderOk, SegmentAt, SegmentCount;
  }

  /** One more program header in each of the loader's running results. */
  lemma KeepLoading(file: seq<nat>, i: nat)
    requires HeaderOk(file) && i < SegmentCount(file)
    ensures var g := SegmentAt(file, i);
      && (SegmentsOk(file, i + 1) <==> SegmentsOk(file, i) && (g.Loads() ==> g.Ok(|file|)))
      && (EntryCovered(file, i + 1) <==>
            EntryCovered(file, i) || (g.Loads() && g.Executes() && g.vaddr <= EntryOf(file) < g.vaddr + g.memsz))
      && ImageEnd(file, i + 1) ==
         if g.Loads() && g.vaddr + g.memsz > CODE_BASE + ImageEnd(file, i) then g.vaddr + g.memsz - CODE_BASE
           else ImageEnd(file, i)
    ensures SegmentAt(file, i).Loads() && SegmentAt(file, i).Ok(|file|) ==> ImageEnd(file, i + 1) > 0
  {
    hide HeaderOk, SegmentAt, SegmentCount, EntryOf;
    HeaderSize(file);
    var g := SegmentAt(file, i);
    if EntryCovered(file, i + 1) {
      var k :| 0 <= k < i + 1 && SegmentAt(file, k).Loads() && SegmentAt(file, k).Executes()
        && SegmentAt(file, k).vaddr <= EntryOf(file) < SegmentAt(file, k).vaddr + SegmentAt(file, k).memsz;
      if k < i {
        assert EntryCovered(file, i);
      }
    }
    if EntryCovered(file, i) {
      var k :| 0 <= k < i && SegmentAt(file, k).Loads() && SegmentAt(file, k).Executes()
        && SegmentAt(file, k).vaddr <= EntryOf(file) < SegmentAt(file, k).vaddr + SegmentAt(file, k).memsz;
      assert EntryCovered(file, i + 1);
    }
  }

  lemma NotAllOk(file: seq<nat>, i: nat)
    requires HeaderOk(file) && i < SegmentCount(file) && SegmentAt(file, i).Loads() && !SegmentAt(file, i).Ok(|file|)
    ensures !SegmentsOk(file, SegmentCount(file))
  {
    hide HeaderOk, SegmentAt, SegmentCount, Segment.Ok;
  }

  lemma FieldsFit(file: seq<nat>, i: nat)
    requires HeaderOk(file) && Bytes(file) && i < SegmentCount(file)
    ensures SegmentAt(file, i).vaddr < U64 && SegmentAt(file, i).memsz < U64
  {
    hide Le, Bytes;
    var o := SegmentsAt(file) + i * SEGMENT_BYTES;
    Word64(file, o + 16);
    Word64(file, o + 40);
  }
}
