// Where a user process lives in the x86_64 address space, and what that leaves of the
// identity window through which the kernel writes physical pages.
module UserLayout64 {
  import opened MachineWords

  const CODE_BASE: nat := 0x40_0000
  const CODE_SLOT_END: nat := 0x60_0000
  const STACK_TOP: nat := 0x8000_0000
  const STACK_PAGE: nat := 0x7FFF_F000
  const MAX_PAGES: nat := 4
  const IMAGE_MAX: nat := 16384

  /** The page lies in the identity window and clear of the slot user code is mapped into. */
  predicate Windowed(f: nat) { f + PAGE <= GIB && !(CODE_BASE <= f < CODE_SLOT_END) }
}
