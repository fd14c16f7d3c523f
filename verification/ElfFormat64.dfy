/** The ELF64 file format (chapters 4 and 5 of the gABI) as an encoder: a header and program
    headers, field by field in file order. What the loader reads back from an encoded file. */
module ElfFormat64 {
  import opened MachineWords
  import opened Elf64

  datatype Header = Header(
    ident: seq<nat>, kind: nat, machine: nat, version: nat, entry: nat, phoff: nat, shoff: nat, flags: nat,
    ehsize: nat, phentsize: nat, phnum: nat, shentsize: nat, shnum: nat, shstrndx: nat)

  datatype Program = Program(
    kind: nat, flags: nat, offset: nat, vaddr: nat, paddr: nat, filesz: nat, memsz: nat, align: nat)

  /** `n` bytes, the least significant first. */
  function Little(value: nat, n: nat): (bytes: seq<nat>)
    ensures |bytes| == n
  {
    if n == 0 then [] else [value % 256] + Little(value / 256, n - 1)
  }

  function EncodeHeader(h: Header): seq<nat> {
    h.ident + Little(h.kind, 2) + Little(h.machine, 2) + Little(h.version, 4) + Little(h.entry, 8) + Little(h.phoff, 8)
    + Little(h.shoff, 8) + Little(h.flags, 4) + Little(h.ehsize, 2) + Little(h.phentsize, 2) + Little(h.phnum, 2)
    + Little(h.shentsize, 2) + Little(h.shnum, 2) + Little(h.shstrndx, 2)
  }

  function EncodeProgram(p: Program): seq<nat> {
    Little(p.kind, 4) + Little(p.flags, 4) + Little(p.offset, 8) + Little(p.vaddr, 8) + Little(p.paddr, 8)
    + Little(p.filesz, 8) + Little(p.memsz, 8) + Little(p.align, 8)
  }

  // Fields fit their widths.
  predicate HeaderFits(h: Header) {
    && |h.ident| == 16
    && h.kind < 0x1_0000 && h.machine < 0x1_0000 && h.version < U32 && h.entry < U64 && h.phoff < U64 && h.shoff < U64
    && h.flags < U32 && h.ehsize < 0x1_0000 && h.phentsize < 0x1_0000 && h.phnum < 0x1_0000
    && h.shentsize < 0x1_0000 && h.shnum < 0x1_0000 && h.shstrndx < 0x1_0000
  }

  predicate ProgramFits(p: Program) {
    && p.kind < U32 && p.flags < U32 && p.offset < U64 && p.vaddr < U64 && p.paddr < U64
    && p.filesz < U64 && p.memsz < U64 && p.align < U64
  }

  /** `part` stands in `file` at `offset`. */
  ghost predicate Stands(file: seq<nat>, offset: nat, part: seq<nat>) {
    offset + |part| <= |file| && file[offset..offset + |part|] == part
  }

  /** The file starts with the header, and the program headers stand one after the other where
      it says. */
  ghost predicate Encodes(file: seq<nat>, h: Header, ps: seq<Program>) {
    && HeaderFits(h) && h.phnum == |ps| && Stands(file, 0, EncodeHeader(h))
    && forall i :: 0 <= i < |ps| ==> ProgramFits(ps[i]) && Stands(file, h.phoff + i * 56, EncodeProgram(ps[i]))
  }

  // ----- reading back

  lemma StandsPart(file: seq<nat>, offset: nat, a: seq<nat>, b: seq<nat>)
    requires Stands(file, offset, a + b)
    ensures Stands(file, offset, a) && Stands(file, offset + |a|, b)
  {
    var ab := file[offset..offset + |a + b|];
    assert ab[..|a|] == a && ab[|a|..] == b;
    assert file[offset..offset + |a|] == ab[..|a|];
    assert file[offset + |a|..offset + |a| + |b|] == ab[|a|..];
  }

  lemma {:induction false} ReadsLittle(file: seq<nat>, offset: nat, n: nat, value: nat)
    requires Stands(file, offset, Little(value, n)) && value < Power256(n)
    ensures Le(file, offset, n) == value
    decreases n
  {
    if n > 0 {
      StandsPart(file, offset, [value % 256], Little(value / 256, n - 1));
      assert file[offset..offset + 1][0] == value % 256;
      ReadsLittle(file, offset + 1, n - 1, value / 256);
    }
  }

  lemma Powers()
    ensures Power256(2) == 0x1_0000 && Power256(4) == U32 && Power256(8) == U64
  {
    assert Power256(1) == 256 && Power256(2) == 256 * Power256(1);
    assert Power256(3) == 256 * Power256(2) && Power256(4) == 256 * Power256(3);
    assert Power256(5) == 256 * Power256(4) && Power256(6) == 256 * Power256(5);
    assert Power256(7) == 256 * Power256(6) && Power256(8) == 256 * Power256(7);
  }

  lemma ProgramStands(file: seq<nat>, o: nat, p: Program)
    requires Stands(file, o, EncodeProgram(p))
    ensures Stands(file, o, Little(p.kind, 4)) && Stands(file, o + 4, Little(p.flags, 4))
    ensures Stands(file, o + 8, Little(p.offset, 8)) && Stands(file, o + 16, Little(p.vaddr, 8))
    ensures Stands(file, o + 32, Little(p.filesz, 8)) && Stands(file, o + 40, Little(p.memsz, 8))
    ensures Stands(file, o + 48, Little(p.align, 8))
  {
    hide Stands, Little;
    var a := Little(p.kind, 4) + Little(p.flags, 4);
    var b := a + Little(p.offset, 8);
    var c := b + Little(p.vaddr, 8);
    var d := c + Little(p.paddr, 8);
    var e := d + Little(p.filesz, 8);
    var f := e + Little(p.memsz, 8);
    StandsPart(file, o, f, Little(p.align, 8));
    StandsPart(file, o, e, Little(p.memsz, 8));
    StandsPart(file, o, d, Little(p.filesz, 8));
    StandsPart(file, o, c, Little(p.paddr, 8));
    StandsPart(file, o, b, Little(p.vaddr, 8));
    StandsPart(file, o, a, Little(p.offset, 8));
    StandsPart(file, o, Little(p.kind, 4), Little(p.flags, 4));
  }

  lemma HeaderStands(file: seq<nat>, h: Header)
    requires |h.ident| == 16 && Stands(file, 0, EncodeHeader(h))
    ensures Stands(file, 0, h.ident) && Stands(file, 16, Little(h.kind, 2)) && Stands(file, 18, Little(h.machine, 2))
    ensures Stands(file, 20, Little(h.version, 4)) && Stands(file, 24, Little(h.entry, 8))
    ensures Stands(file, 32, Little(h.phoff, 8)) && Stands(file, 52, Little(h.ehsize, 2))
    ensures Stands(file, 54, Little(h.phentsize, 2)) && Stands(file, 56, Little(h.phnum, 2)) && |file| >= 64
  {
    hide Stands, Little;
    var a := h.ident + Little(h.kind, 2);
    var b := a + Little(h.machine, 2);
    var c := b + Little(h.version, 4);
    var d := c + Little(h.entry, 8);
    var e := d + Little(h.phoff, 8);
    var f := e + Little(h.shoff, 8);
    var g := f + Little(h.flags, 4);
    var i := g + Little(h.ehsize, 2);
    var j := i + Little(h.phentsize, 2);
    var k := j + Little(h.phnum, 2);
    var l := k + Little(h.shentsize, 2);
    var m := l + Little(h.shnum, 2);
    assert |file| >= 64 by { StandsInside(file, 0, EncodeHeader(h)); }
    StandsPart(file, 0, m, Little(h.shstrndx, 2));
    StandsPart(file, 0, l, Little(h.shnum, 2));
    StandsPart(file, 0, k, Little(h.shentsize, 2));
    StandsPart(file, 0, j, Little(h.phnum, 2));
    StandsPart(file, 0, i, Little(h.phentsize, 2));
    StandsPart(file, 0, g, Little(h.ehsize, 2));
    StandsPart(file, 0, f, Little(h.flags, 4));
    StandsPart(file, 0, e, Little(h.shoff, 8));
    StandsPart(file, 0, d, Little(h.phoff, 8));
    StandsPart(file, 0, c, Little(h.entry, 8));
    StandsPart(file, 0, b, Little(h.version, 4));
    StandsPart(file, 0, a, Little(h.machine, 2));
    StandsPart(file, 0, h.ident, Little(h.kind, 2));
  }

  lemma StandsInside(file: seq<nat>, offset: nat, part: seq<nat>)
    requires Stands(file, offset, part)
    ensures offset + |part| <= |file|
  {
  }

  /** The loader reads the header fields that were encoded. */
  lemma ReadsHeader(file: seq<nat>, h: Header, ps: seq<Program>)
    requires Encodes(file, h, ps)
    ensures |file| >= HEADER_BYTES && file[..16] == h.ident
    ensures Le(file, 16, 2) == h.kind && Le(file, 18, 2) == h.machine && Le(file, 20, 4) == h.version
    ensures EntryOf(file) == h.entry && SegmentsAt(file) == h.phoff && SegmentCount(file) == |ps|
    ensures Le(file, 52, 2) == h.ehsize && Le(file, 54, 2) == h.phentsize
  {
    hide Little, Le, EncodeHeader, EncodeProgram, Power256;
    HeaderStands(file, h);
    Powers();
    ReadsLittle(file, 16, 2, h.kind);
    ReadsLittle(file, 18, 2, h.machine);
    ReadsLittle(file, 20, 4, h.version);
    ReadsLittle(file, 24, 8, h.entry);
    ReadsLittle(file, 32, 8, h.phoff);
    ReadsLittle(file, 52, 2, h.ehsize);
    ReadsLittle(file, 54, 2, h.phentsize);
    ReadsLittle(file, 56, 2, h.phnum);
  }

  /** Each program header is read back field for field. */
  lemma ReadsProgram(file: seq<nat>, h: Header, ps: seq<Program>, i: nat)
    requires Encodes(file, h, ps) && HeaderOk(file) && i < |ps|
    ensures SegmentCount(file) == |ps|
    ensures var g, p := SegmentAt(file, i), ps[i];
      && g.kind == p.kind && g.flags == p.flags && g.offset == p.offset && g.vaddr == p.vaddr
      && g.filesz == p.filesz && g.memsz == p.memsz && g.align == p.align
  {
    hide Little, Le, EncodeHeader, EncodeProgram, Power256, HeaderOk;
    ReadsHeader(file, h, ps);
    HeaderSize(file);
    var o, p := h.phoff + i * 56, ps[i];
    ProgramStands(file, o, p);
    Powers();
    ReadsLittle(file, o, 4, p.kind);
    ReadsLittle(file, o + 4, 4, p.flags);
    ReadsLittle(file, o + 8, 8, p.offset);
    ReadsLittle(file, o + 16, 8, p.vaddr);
    ReadsLittle(file, o + 32, 8, p.filesz);
    ReadsLittle(file, o + 40, 8, p.memsz);
    ReadsLittle(file, o + 48, 8, p.align);
  }

  // ----- which encoded files are accepted

  /** A 64-bit little-endian x86-64 executable with one to eight program headers inside it. */
  ghost predicate Executable(h: Header, ps: seq<Program>, total: nat) {
    && 64 <= total <= 65536 && |h.ident| == 16
    && h.ident[0] == 0x7F && h.ident[1] == 69 && h.ident[2] == 76 && h.ident[3] == 70
    && h.ident[4] == 2 && h.ident[5] == 1 && h.ident[6] == 1
    && h.kind == 2 && h.machine == 62 && h.version == 1 && h.ehsize == 64 && h.phentsize == 56
    && 1 <= |ps| <= 8 && h.phoff + 56 * |ps| <= total
  }

  /** PT_LOAD with some memory. */
  predicate Loaded(p: Program) { p.kind == 1 && p.memsz > 0 }

  /** Inside the four code pages at 4 MiB, page aligned, its bytes inside the file. */
  predicate Placed(p: Program, total: nat) {
    && 0x40_0000 <= p.vaddr && p.vaddr + p.memsz <= 0x40_4000
    && p.align == 4096 && p.filesz <= p.memsz && p.offset + p.filesz <= total
  }

  predicate Covers(p: Program, va: nat) { Loaded(p) && p.vaddr <= va < p.vaddr + p.memsz }

  /** What a file has to satisfy to be run. */
  ghost predicate Runs(h: Header, ps: seq<Program>, total: nat) {
    && Executable(h, ps, total)
    && (forall i :: 0 <= i < |ps| && Loaded(ps[i]) ==> Placed(ps[i], total))
    && (exists i :: 0 <= i < |ps| && Covers(ps[i], h.entry) && ps[i].flags % 2 == 1)
  }

  lemma HeaderExactly(file: seq<nat>, h: Header, ps: seq<Program>)
    requires Encodes(file, h, ps)
    ensures HeaderOk(file) <==> Executable(h, ps, |file|)
  {
    hide Le, Stands, EncodeHeader, EncodeProgram;
    ReadsHeader(file, h, ps);
    assert file[..7] == h.ident[..7] by { assert file[..7] == file[..16][..7]; }
    var magic := [0x7F, 69, 76, 70, 2, 1, 1];
    assert 'E' as nat == 69 && 'L' as nat == 76 && 'F' as nat == 70;
    assert h.ident[..7] == magic <==> forall k :: 0 <= k < 7 ==> h.ident[k] == magic[k] by {
      SamePrefix(h.ident, magic);
    }
  }

  lemma SamePrefix(a: seq<nat>, b: seq<nat>)
    requires |b| <= |a|
    ensures a[..|b|] == b <==> forall k :: 0 <= k < |b| ==> a[k] == b[k]
  {
    if a[..|b|] == b {
      forall k | 0 <= k < |b| ensures a[k] == b[k] {
        assert a[..|b|][k] == b[k];
      }
    }
  }

  /** The loader accepts an encoded file exactly when its header and program headers meet the
      stated bounds. */
  lemma AcceptedExactly(file: seq<nat>, h: Header, ps: seq<Program>)
    requires Encodes(file, h, ps)
    ensures Accepted(file) <==> Runs(h, ps, |file|)
  {
    hide Le, Stands, EncodeHeader, EncodeProgram, HeaderOk, SegmentAt, Executable, Encodes, EntryOf, SegmentCount;
    HeaderExactly(file, h, ps);
    if HeaderOk(file) {
      ReadsHeader(file, h, ps);
      forall i | 0 <= i < |ps|
        ensures SegmentAt(file, i).Loads() <==> Loaded(ps[i])
        ensures SegmentAt(file, i).Ok(|file|) <==> Placed(ps[i], |file|)
        ensures SegmentAt(file, i).Executes() <==> ps[i].flags % 2 == 1
        ensures SegmentAt(file, i).vaddr == ps[i].vaddr && SegmentAt(file, i).memsz == ps[i].memsz
      {
        ReadsProgram(file, h, ps, i);
      }
      EntryExactly(file, h, ps);
    }
  }

  lemma EntryExactly(file: seq<nat>, h: Header, ps: seq<Program>)
    requires HeaderOk(file) && |file| >= HEADER_BYTES && SegmentCount(file) == |ps| && EntryOf(file) == h.entry
    requires forall i :: 0 <= i < |ps| ==>
      && (SegmentAt(file, i).Loads() <==> Loaded(ps[i])) && (SegmentAt(file, i).Executes() <==> ps[i].flags % 2 == 1)
      && SegmentAt(file, i).vaddr == ps[i].vaddr && SegmentAt(file, i).memsz == ps[i].memsz
    ensures EntryCovered(file, |ps|) <==> exists i :: 0 <= i < |ps| && Covers(ps[i], h.entry) && ps[i].flags % 2 == 1
  {
    hide HeaderOk, SegmentAt, EntryOf, SegmentCount;
    if i :| 0 <= i < |ps| && Covers(ps[i], h.entry) && ps[i].flags % 2 == 1 {
      assert SegmentAt(file, i).Loads() && SegmentAt(file, i).Executes();
    }
    if EntryCovered(file, |ps|) {
      var i :| 0 <= i < |ps| && SegmentAt(file, i).Loads() && SegmentAt(file, i).Executes()
        && SegmentAt(file, i).vaddr <= EntryOf(file) < SegmentAt(file, i).vaddr + SegmentAt(file, i).memsz;
      assert Covers(ps[i], h.entry);
    }
  }

  // ----- every file is an encoding

  lemma {:induction false} LittleOfRead(file: seq<nat>, offset: nat, n: nat)
    requires Bytes(file) && offset + n <= |file|
    ensures Stands(file, offset, Little(Le(file, offset, n), n)) && Le(file, offset, n) < Power256(n)
    decreases n
  {
    LeBound(file, offset, n);
    if n > 0 {
      LittleOfRead(file, offset + 1, n - 1);
      var rest := Le(file, offset + 1, n - 1);
      Quotient(file[offset] + 256 * rest, 256, rest, file[offset]);
      assert file[offset..offset + n] == [file[offset]] + file[offset + 1..offset + 1 + (n - 1)];
    }
  }

  lemma StandsJoin(file: seq<nat>, offset: nat, a: seq<nat>, b: seq<nat>)
    requires Stands(file, offset, a) && Stands(file, offset + |a|, b)
    ensures Stands(file, offset, a + b)
  {
    assert file[offset..offset + |a + b|] == file[offset..offset + |a|] + file[offset + |a|..offset + |a| + |b|];
  }

  lemma ProgramFound(file: seq<nat>, o: nat) returns (p: Program)
    requires Bytes(file) && o + 56 <= |file|
    ensures ProgramFits(p) && Stands(file, o, EncodeProgram(p))
  {
    hide Stands, Little, Le, Bytes, Power256;
    Powers();
    p := Program(Le(file, o, 4), Le(file, o + 4, 4), Le(file, o + 8, 8), Le(file, o + 16, 8), Le(file, o + 24, 8),
      Le(file, o + 32, 8), Le(file, o + 40, 8), Le(file, o + 48, 8));
    LittleOfRead(file, o, 4);
    LittleOfRead(file, o + 4, 4);
    LittleOfRead(file, o + 8, 8);
    LittleOfRead(file, o + 16, 8);
    LittleOfRead(file, o + 24, 8);
    LittleOfRead(file, o + 32, 8);
    LittleOfRead(file, o + 40, 8);
    LittleOfRead(file, o + 48, 8);
    var a := Little(p.kind, 4) + Little(p.flags, 4);
    StandsJoin(file, o, Little(p.kind, 4), Little(p.flags, 4));
    var b := a + Little(p.offset, 8);
    StandsJoin(file, o, a, Little(p.offset, 8));
    var c := b + Little(p.vaddr, 8);
    StandsJoin(file, o, b, Little(p.vaddr, 8));
    var d := c + Little(p.paddr, 8);
    StandsJoin(file, o, c, Little(p.paddr, 8));
    var e := d + Little(p.filesz, 8);
    StandsJoin(file, o, d, Little(p.filesz, 8));
    StandsJoin(file, o, e, Little(p.memsz, 8));
    StandsJoin(file, o, e + Little(p.memsz, 8), Little(p.align, 8));
  }

  lemma HeaderFound(file: seq<nat>) returns (h: Header)
    requires Bytes(file) && |file| >= 64
    ensures HeaderFits(h) && Stands(file, 0, EncodeHeader(h))
    ensures h.phoff == SegmentsAt(file) && h.phnum == SegmentCount(file)
  {
    hide Stands, Little, Le, Bytes, Power256;
    Powers();
    h := Header(file[..16], Le(file, 16, 2), Le(file, 18, 2), Le(file, 20, 4), Le(file, 24, 8), Le(file, 32, 8),
      Le(file, 40, 8), Le(file, 48, 4), Le(file, 52, 2), Le(file, 54, 2), Le(file, 56, 2), Le(file, 58, 2),
      Le(file, 60, 2), Le(file, 62, 2));
    LittleOfRead(file, 16, 2);
    LittleOfRead(file, 18, 2);
    LittleOfRead(file, 20, 4);
    LittleOfRead(file, 24, 8);
    LittleOfRead(file, 32, 8);
    LittleOfRead(file, 40, 8);
    LittleOfRead(file, 48, 4);
    LittleOfRead(file, 52, 2);
    LittleOfRead(file, 54, 2);
    LittleOfRead(file, 56, 2);
    LittleOfRead(file, 58, 2);
    LittleOfRead(file, 60, 2);
    LittleOfRead(file, 62, 2);
    assert Stands(file, 0, h.ident) by { IdentStands(file); }
    var a := h.ident + Little(h.kind, 2);
    StandsJoin(file, 0, h.ident, Little(h.kind, 2));
    var b := a + Little(h.machine, 2);
    StandsJoin(file, 0, a, Little(h.machine, 2));
    var c := b + Little(h.version, 4);
    StandsJoin(file, 0, b, Little(h.version, 4));
    var d := c + Little(h.entry, 8);
    StandsJoin(file, 0, c, Little(h.entry, 8));
    var e := d + Little(h.phoff, 8);
    StandsJoin(file, 0, d, Little(h.phoff, 8));
    var f := e + Little(h.shoff, 8);
    StandsJoin(file, 0, e, Little(h.shoff, 8));
    var g := f + Little(h.flags, 4);
    StandsJoin(file, 0, f, Little(h.flags, 4));
    var i := g + Little(h.ehsize, 2);
    StandsJoin(file, 0, g, Little(h.ehsize, 2));
    var j := i + Little(h.phentsize, 2);
    StandsJoin(file, 0, i, Little(h.phentsize, 2));
    var k := j + Little(h.phnum, 2);
    StandsJoin(file, 0, j, Little(h.phnum, 2));
    var l := k + Little(h.shentsize, 2);
    StandsJoin(file, 0, k, Little(h.shentsize, 2));
    StandsJoin(file, 0, l, Little(h.shnum, 2));
    StandsJoin(file, 0, l + Little(h.shnum, 2), Little(h.shstrndx, 2));
  }

  lemma IdentStands(file: seq<nat>)
    requires |file| >= 16
    ensures Stands(file, 0, file[..16])
  {
  }

  lemma {:induction false} ProgramsFound(file: seq<nat>, phoff: nat, n: nat) returns (ps: seq<Program>)
    requires Bytes(file) && phoff + 56 * n <= |file|
    ensures |ps| == n
    ensures forall i :: 0 <= i < n ==> ProgramFits(ps[i]) && Stands(file, phoff + i * 56, EncodeProgram(ps[i]))
    decreases n
  {
    hide Stands, EncodeProgram, ProgramFits, Bytes;
    ps := [];
    if n > 0 {
      var front := ProgramsFound(file, phoff, n - 1);
      var p := ProgramFound(file, phoff + (n - 1) * 56);
      ps := front + [p];
    }
  }

  /** Whatever bytes a file consists of, it encodes a header and, if they lie inside the file,
      program headers: so the law of acceptance covers every file. */
  lemma EveryFileEncodes(file: seq<nat>) returns (h: Header, ps: seq<Program>)
    requires Bytes(file) && |file| >= HEADER_BYTES && SegmentsAt(file) + 56 * SegmentCount(file) <= |file|
    ensures Encodes(file, h, ps)
  {
    hide Stands, EncodeProgram, EncodeHeader, ProgramFits, HeaderFits, Bytes, SegmentsAt, SegmentCount;
    h := HeaderFound(file);
    ps := ProgramsFound(file, h.phoff, h.phnum);
  }
}
