/** The fixed-width unsigned integers of the contract (`u64` and `Uint128`),
    as subsets of the unbounded integers, with the checked addition that
    `Uint128`'s `+` (and `u64`'s `+` in a build with overflow checks) performs. */
module Ints {
  import opened Wrappers

  const U64_MAX: int := 0xFFFF_FFFF_FFFF_FFFF
  const U128_MAX: int := 0xFFFF_FFFF_FFFF_FFFF_FFFF_FFFF_FFFF_FFFF

  type U64 = x: int | 0 <= x <= U64_MAX
  type U128 = x: int | 0 <= x <= U128_MAX

  /** `a + b` when it fits in 64 bits; `None` where Rust would panic. */
  function CheckedAdd64(a: U64, b: U64): (r: Option<U64>)
  {
    if a + b <= U64_MAX then Some(a + b) else None
  }

  /** `a + b` when it fits in 128 bits; `None` where `Uint128` panics. */
  function CheckedAdd128(a: U128, b: U128): (r: Option<U128>)
  {
    if a + b <= U128_MAX then Some(a + b) else None
  }
}
