/** The fixed-width integers of the viewer and their arithmetic in a build
    without overflow checks (Rust's release profile), where `+` and `-` wrap. */
module MachineInts {

  const U16_LIMIT: int := 0x1_0000
  const USIZE_MAX: int := 0xFFFF_FFFF_FFFF_FFFF

  type uint16 = x: int | 0 <= x < U16_LIMIT
  type int32 = x: int | -0x8000_0000 <= x < 0x8000_0000

  /** `a + b` on u16: the sum modulo 2^16. */
  function WrappingAdd16(a: uint16, b: uint16): (r: uint16)
    ensures a + b < U16_LIMIT ==> r == a + b
    ensures a + b >= U16_LIMIT ==> r == a + b - U16_LIMIT
  {
    (a + b) % U16_LIMIT
  }

  /** `a - b` on u16: the difference modulo 2^16. */
  function WrappingSub16(a: uint16, b: uint16): (r: uint16)
    ensures a >= b ==> r == a - b
    ensures a < b ==> r == a - b + U16_LIMIT
  {
    (a - b) % U16_LIMIT
  }

  /** `n - 1` on usize: 0 wraps round to `usize::MAX`. */
  function WrappingPred(n: nat): nat {
    if n == 0 then USIZE_MAX else n - 1
  }
}
