// Machine constants both kernels share, and division by them.
module MachineWords {
  const U32: nat := 0x1_0000_0000
  const U64: nat := 0x1_0000_0000_0000_0000
  const PAGE: nat := 4096
  const GIB: nat := 0x4000_0000

  /** Quotient and remainder are determined by what they add up to. */
  lemma Quotient(x: nat, m: nat, q: nat, r: nat)
    requires m > 0 && x == q * m + r && r < m
    ensures x / m == q && x % m == r
  {
    var d := x / m - q;
    assert x == (x / m) * m + x % m;
    assert d * m == r - x % m;
  }
}
