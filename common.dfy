/** Small value types shared by every component of the image-variant pipeline. */
module Common {

  /** A .NET `byte`. */
  newtype byte = x: int | 0 <= x < 256

  /** A `byte[]` buffer, as a value. */
  type Bytes = seq<byte>

  /** A .NET `int` (32-bit, two's complement). */
  newtype int32 = x: int | -0x8000_0000 <= x < 0x8000_0000

  /** A possibly-null reference, or the absence of a value. */
  datatype Option<+T> = None | Some(value: T)

  /** The outcome of a call that may throw: `Err` carries what was thrown. */
  datatype Result<+T, +E> = Ok(value: T) | Err(error: E)
}
