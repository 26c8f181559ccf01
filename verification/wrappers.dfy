/** Option, standing in for the values a Java constructor may refuse to build. */
module Wrappers {
  datatype Option<+T> = None | Some(value: T)
}

/** Java's fixed-width integer types, as bounded integers. */
module JavaIntegers {
  newtype int32 = x: int | -0x8000_0000 <= x < 0x8000_0000
  newtype int64 = x: int | -0x8000_0000_0000_0000 <= x < 0x8000_0000_0000_0000
}
