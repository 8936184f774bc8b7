/** Values shared by modules that have nothing else in common. */
module Basics {
  datatype Option<T> = None | Some(value: T)

  type Byte = x: int | 0 <= x < 256
  type U16 = x: int | 0 <= x < 0x1_0000

  const P32: nat := 0x1_0000_0000

  function Min(a: int, b: int): int { if a < b then a else b }
}
