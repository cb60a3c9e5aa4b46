/** Types that several of the modelled files share. */
module Basics {

  datatype Option<T> = None | Some(value: T)

  type byte = b: nat | b < 256

  /** The largest value of a 32-bit `int`. */
  const INT_MAX: int := 0x7fff_ffff
}
