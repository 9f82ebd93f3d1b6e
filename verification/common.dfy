/** Result types and the machine-word arithmetic that every kernel module shares. */
module Wrappers {

  datatype Option<+T> = None | Some(value: T)

  datatype Result<+T, +E> = Ok(value: T) | Err(error: E)
}

/** Unsigned 64-bit words are integers with an explicit range; every checked
    operation of the source is an explicit comparison against the range. */
module Machine {

  const U64_LIMIT: int := 0x1_0000_0000_0000_0000
  const U64_MAX: int := U64_LIMIT - 1
  const PAGE_SIZE: int := 4096

  type u64 = x: int | 0 <= x < U64_LIMIT
  type u32 = x: int | 0 <= x < 0x1_0000_0000
  type u16 = x: int | 0 <= x < 0x1_0000
  type u8 = x: int | 0 <= x < 0x100

  // `saturating_add` and `saturating_mul`.
  function Saturate(x: int): int {
    if x < U64_LIMIT then x else U64_MAX
  }
}
