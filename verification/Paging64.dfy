/** Physical memory as frames, and the 4-level page table walk (Intel SDM volume 3A,
    section 4.5) as a function of it. */
module Paging64 {
  import opened MachineWords
  import opened Wrappers

  const WORDS: nat := 512

  /** A frame holds 512 table words or 4096 bytes. */
  datatype Frame = Table(words: seq<nat>) | Data(bytes: seq<nat>)

  type Memory = map<nat, Frame>

  /** The physical address a walk ends at, and the rights all its levels grant. */
  datatype Leaf = Leaf(phys: nat, user: bool, writable: bool)

  // Bit k of a word is set when the word modulo 2^(k+1) is at least 2^k.
  predicate Present(e: nat) { e % 2 == 1 }
  predicate Writable(e: nat) { e % 4 >= 2 }
  predicate User(e: nat) { e % 8 >= 4 }
  predicate Huge(e: nat) { e % 256 >= 128 }
  function FrameOf(e: nat): nat { e / 4096 * 4096 }

  const P_W: nat := 3
  const P_U: nat := 5
  const P_W_U: nat := 7
  const P_W_HUGE: nat := 0x83

  /** A word pointing at `frame` with the given low bits. */
  function Entry(frame: nat, low: nat): nat { frame + low }

  lemma EntryBits(frame: nat, low: nat)
    requires frame % 4096 == 0 && low < 4096
    ensures FrameOf(Entry(frame, low)) == frame && Entry(frame, low) % 4096 == low
    ensures Present(Entry(frame, low)) == Present(low) && Writable(Entry(frame, low)) == Writable(low)
    ensures User(Entry(frame, low)) == User(low) && Huge(Entry(frame, low)) == Huge(low)
  {
    var k := frame / 4096;
    assert frame == 4096 * k;
    ModShift(k * 16, low, 256);
    ModShift(k * 512, low, 8);
    ModShift(k * 1024, low, 4);
    ModShift(k * 2048, low, 2);
  }

  lemma ModShift(k: nat, low: nat, m: nat)
    requires m > 0
    ensures (k * m + low) % m == low % m
    decreases k
  {
    if k > 0 {
      ModShift(k - 1, low, m);
      assert k * m + low == ((k - 1) * m + low) + m;
      AddModulus((k - 1) * m + low, m);
    }
  }

  lemma AddModulus(x: nat, m: nat)
    requires m > 0
    ensures (x + m) % m == x % m
  {
    var q, r := x / m, x % m;
    assert x == q * m + r;
    assert x + m == (q + 1) * m + r;
    Quotient(x + m, m, q + 1, r);
  }

  // Table indices of a virtual address, and the offset below each level.
  function Index4(va: nat): (i: nat) ensures i < WORDS { va / 0x80_0000_0000 % 512 }
  function Index3(va: nat): (i: nat) ensures i < WORDS { va / 0x4000_0000 % 512 }
  function Index2(va: nat): (i: nat) ensures i < WORDS { va / 0x20_0000 % 512 }
  function Index1(va: nat): (i: nat) ensures i < WORDS { va / 0x1000 % 512 }

  /** Word `i` of the table in frame `t`; a frame that holds no table reads as not present. */
  function WordAt(mem: Memory, t: nat, i: nat): nat
    requires i < WORDS
  {
    if t in mem && mem[t].Table? && |mem[t].words| == WORDS then mem[t].words[i] else 0
  }

  datatype Rights = Rights(user: bool, writable: bool) {
    function And(e: nat): Rights { Rights(user && User(e), writable && Writable(e)) }
  }

  function Walk(mem: Memory, cr3: nat, va: nat): Option<Leaf> {
    var e := WordAt(mem, cr3, Index4(va));
    if !Present(e) then None else Walk3(mem, FrameOf(e), va, Rights(true, true).And(e))
  }

  function Walk3(mem: Memory, t: nat, va: nat, r: Rights): Option<Leaf> {
    var e := WordAt(mem, t, Index3(va));
    if !Present(e) then None
    else if Huge(e) then Some(Leaf(e / 0x4000_0000 * 0x4000_0000 + va % 0x4000_0000, r.And(e).user, r.And(e).writable))
    else Walk2(mem, FrameOf(e), va, r.And(e))
  }

  function Walk2(mem: Memory, t: nat, va: nat, r: Rights): Option<Leaf> {
    var e := WordAt(mem, t, Index2(va));
    if !Present(e) then None
    else if Huge(e) then Some(Leaf(e / 0x20_0000 * 0x20_0000 + va % 0x20_0000, r.And(e).user, r.And(e).writable))
    else Walk1(mem, FrameOf(e), va, r.And(e))
  }

  function Walk1(mem: Memory, t: nat, va: nat, r: Rights): Option<Leaf> {
    var e := WordAt(mem, t, Index1(va));
    if !Present(e) then None
    else Some(Leaf(FrameOf(e) + va % PAGE, r.And(e).user, r.And(e).writable))
  }

  /** The byte a virtual address reads, when its walk ends in a data frame. */
  function ByteAt(mem: Memory, cr3: nat, va: nat): Option<nat> {
    match Walk(mem, cr3, va)
    case None => None
    case Some(leaf) =>
      var f := FrameOf(leaf.phys);
      if f in mem && mem[f].Data? && |mem[f].bytes| == PAGE then Some(mem[f].bytes[leaf.phys % PAGE]) else None
  }
}
