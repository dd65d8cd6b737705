// Small shared datatypes and the byte type used by every component.
module Wrappers {
  datatype Option<+T> = None | Some(value: T)

  // An unsigned octet.
  type byte = b: int | 0 <= b < 256
}
