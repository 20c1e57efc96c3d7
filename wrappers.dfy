/** Option and Result, as the handlers use them. */
module Wrappers {
  datatype Option<+T> = None | Some(value: T)

  datatype Result<+T, +E> = Ok(value: T) | Err(error: E)
}

/** The fixed-width integers of the server: Rust's `u8`, `i32` (Postgres `Int4`) and `u64`. */
module Primitives {
  type byte = x: int | 0 <= x < 0x100

  type Bytes = seq<byte>

  type i32 = x: int | -0x8000_0000 <= x < 0x8000_0000

  const I32Max: int := 0x7fff_ffff

  type u64 = x: int | 0 <= x < 0x1_0000_0000_0000_0000
}
