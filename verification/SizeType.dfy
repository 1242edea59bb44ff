/** `SizeType` of Base/Types.hpp. */
module SizeTypes {
  /** The number of values of the type. */
  const SIZE_RANGE: nat := 0x1_0000_0000_0000_0000
}
