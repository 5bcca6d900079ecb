/** What every component shares. */
module Wrappers {
  datatype Option<+T> = None | Some(value: T)

  /** The range of an int of the source. */
  const INT_MIN: int := -0x8000_0000
  const INT_MAX: int := 0x7FFF_FFFF
}
