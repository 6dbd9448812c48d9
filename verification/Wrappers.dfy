/** Failure-carrying results shared by every module of the model. */
module Wrappers {
  datatype Option<+T> = None | Some(value: T)

  datatype Result<+T, +E> = Ok(value: T) | Err(error: E)

  const TWO_32: int := 0x1_0000_0000

  /** Rust's unsigned 32-bit integers. */
  type U32 = x: int | 0 <= x < 0x1_0000_0000

  /** Rust's signed 32-bit integers. */
  type I32 = x: int | -0x8000_0000 <= x < 0x8000_0000

  /** Rust's signed 64-bit integers. */
  type I64 = x: int | -0x8000_0000_0000_0000 <= x < 0x8000_0000_0000_0000

  const I64_MIN: I64 := -0x8000_0000_0000_0000

  type Bytes = seq<bv8>

  /** `cast_unsigned`: the two's complement bit pattern of a signed value. */
  function CastUnsigned(x: I32): (r: U32)
    ensures r == x || r == x + TWO_32
  {
    if x < 0 then x + TWO_32 else x
  }
}
