/** Types shared by every part of the compressor model. */
module Common {

  /** Go's `byte`: an unsigned 8-bit value. */
  type byte = x: int | 0 <= x < 256

  /** 2^32, the range of Go's `uint32`. */
  const TwoTo32: nat := 0x1_0000_0000

  datatype Option<+T> = None | Some(value: T)

  /** The value-or-error pair that Go functions return as `(T, error)`. */
  datatype Result<+T, +E> = Success(value: T) | Failure(error: E)
}
