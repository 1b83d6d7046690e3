/** Machine integers. */
module Integers {

  newtype uint8 = x: int | 0 <= x < 256

  type byte = uint8
}
