/** Vocabulary shared by every module: bytes, machine integers and the two
    wrapper datatypes used for absent values and error returns. */
module Prelude {
  type byte = b: int | 0 <= b < 256
  type bytes = seq<byte>

  type int32 = x: int | -0x8000_0000 <= x < 0x8000_0000
  type int64 = x: int | -0x8000_0000_0000_0000 <= x < 0x8000_0000_0000_0000
  type uint64 = x: int | 0 <= x < 0x1_0000_0000_0000_0000

  const TWO_63: int := 0x8000_0000_0000_0000
  const TWO_64: int := 0x1_0000_0000_0000_0000
  const MAX_UINT64: int := TWO_64 - 1

  datatype Option<+T> = None | Some(value: T)

  datatype Result<+T, +E> = Ok(value: T) | Err(error: E)

  /** The contents of a Go byte slice, for which nil and empty compare equal. */
  function Raw(slice: Option<bytes>): bytes {
    if slice.Some? then slice.value else []
  }
}
