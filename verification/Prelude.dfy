/** Types that several of the modelled components share. */
module Prelude {
  type Byte = b: nat | b < 256 witness 0

  datatype Option<T> = None | Some(value: T)
}
