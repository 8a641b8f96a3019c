/** Types that several modules share. */
module Wrappers {

  datatype Option<+T> = None | Some(value: T)

  /** A signed 64-bit number. */
  type Int64 = x: int | -0x8000_0000_0000_0000 <= x < 0x8000_0000_0000_0000
}
