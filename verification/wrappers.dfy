/** Small shared vocabulary: an optional value, an outcome that may be an
    exception, and the 32-bit signed integers the generator uses for marker
    IDs (seeds) and enumeration values. */
module Wrappers {

  /** A value that may be absent: a nullable reference or `int?` of the program. */
  datatype Option<+T> = None | Some(value: T)

  /** The outcome of a call that may throw: its value, or the exception. */
  datatype Result<+T, +E> = Success(value: T) | Failure(error: E)

  /** The range of a 32-bit signed integer (`int`). */
  newtype Int32 = x: int | -0x8000_0000 <= x < 0x8000_0000
}
