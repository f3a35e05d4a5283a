/** The fixed-width integers of the source, with the wrap-around its release build gives them. */
module MachineInts {
  const U32_MOD := 0x1_0000_0000
  const U64_MOD := 0x1_0000_0000_0000_0000
  const I64_LIMIT := 0x8000_0000_0000_0000

  type u32 = x: int | 0 <= x < 0x1_0000_0000
  type u64 = x: int | 0 <= x < 0x1_0000_0000_0000_0000
  type i64 = x: int | -0x8000_0000_0000_0000 <= x < 0x8000_0000_0000_0000

  function WrapU32(x: int): u32
    requires 0 <= x < 2 * U32_MOD
  {
    if x < U32_MOD then x else x - U32_MOD
  }

  function WrapU64(x: int): u64
    requires -U64_MOD <= x < 2 * U64_MOD
  {
    if x < 0 then x + U64_MOD else if x < U64_MOD then x else x - U64_MOD
  }

  function WrapI64(x: int): i64
    requires -U64_MOD <= x < U64_MOD
  {
    if x < -I64_LIMIT then x + U64_MOD else if x < I64_LIMIT then x else x - U64_MOD
  }

  /** `p` is what is left of the integer `x` after any number of wraps. */
  ghost predicate IsWrapOf(p: i64, x: int) {
    (x - p) % U64_MOD == 0
  }

  lemma WrapExact(p: i64, x: int)
    requires IsWrapOf(p, x) && -I64_LIMIT <= x < I64_LIMIT
    ensures p == x
  {
  }

  /** Wrapping a running sum at every addition wraps the whole sum. */
  lemma WrapSum(p: i64, x: int, y: i64)
    requires IsWrapOf(p, x)
    ensures IsWrapOf(WrapI64(p + y), x + y)
  {
  }
}
