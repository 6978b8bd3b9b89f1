/** Small value types shared by every component of the model. */
module Wrappers {
  /** A value that may be absent: a nullable pointer of the C code. */
  datatype Option<T> = None | Some(value: T)

  /**
   * The library's `ftgl_return_t` codes that the modelled operations can
   * return; `AtlasFullError` is the code the atlas returns when its special
   * region does not fit.
   */
  datatype ReturnCode = NoError | MemoryError | AtlasFullError

  /** Unsigned 32-bit integers (`uint32_t`). */
  newtype uint32 = x: int | 0 <= x < 0x1_0000_0000
}
