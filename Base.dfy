/** Failure-compatible wrappers and the fixed-width integer ranges of the
    Rust source (u8, u32), shared by every other module. */
module Base {

  datatype Option<+T> = None | Some(value: T)

  /** `Result<T, E>` of the source; `Err` carries the error value. */
  datatype Result<+T, +E> = Ok(value: T) | Err(error: E)

  const U32_LIMIT: int := 0x1_0000_0000
  const U32_MAX: int := U32_LIMIT - 1

  /** Rust `u8`. */
  type u8 = x: int | 0 <= x < 0x100

  /** Rust `u32`. */
  type u32 = x: int | 0 <= x < U32_LIMIT
}
