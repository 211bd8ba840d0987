/** Types that several modules share. */
module Wrappers {
  datatype Option<T> = None | Some(value: T)

  datatype Result<T> = Ok(value: T) | Error

  type Byte = bv8

  /** How the sign of a number is written. */
  datatype Sign = NoSign | Minus | Plus | Space
}
