// What several models share: optional values and the size of a 64-bit register.
module Basics {
  datatype Option<T> = None | Some(value: T)

  const WORD: nat := 0x1_0000_0000_0000_0000
}
