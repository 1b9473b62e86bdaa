/** Shared vocabulary: bytes and the three ways a call of the modelled code can end. */
module Common {

  /** An unsigned 8-bit value (Rust `u8`). */
  type Byte = b: int | 0 <= b < 256

  datatype Option<+T> = None | Some(value: T)

  /**
   * The outcome of a fallible routine of the assembler: a value, the error the
   * routine returns, or `Panic`, standing for a Rust panic (an out-of-range
   * index, an `unwrap` of a failed conversion, an integer overflow) that unwinds
   * out of the routine before any result is produced.
   */
  datatype Outcome<+T, +E> = Ok(value: T) | Err(error: E) | Panic
}
