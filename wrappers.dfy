/** Optional values, standing for Swift's `T?` (nil or a value). */
module Wrappers {
  datatype Option<+T> = None | Some(value: T)
}

/** Octets, as Swift's `UInt8` elements of `Data` and `[UInt8]`. */
module Bytes {
  type Byte = b: int | 0 <= b < 256
}
