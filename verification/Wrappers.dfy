// Types that several modules share.

module Wrappers {

  datatype Option<+T> = None | Some(value: T)

  /** A byte as a number, and a byte of text. */
  type byte = x: int | 0 <= x < 256

  type Char = c: char | c as int < 256
}
