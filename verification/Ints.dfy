/** The unsigned integers of stage2/STD/int.h, and an optional value for pointers that may be NULL. */
module Ints {

  const LIMIT16 := 0x1_0000
  const LIMIT32 := 0x1_0000_0000

  type Byte = x: int | 0 <= x < 256
  type U16 = x: int | 0 <= x < LIMIT16
  type U32 = x: int | 0 <= x < LIMIT32

  datatype Option<T> = None | Some(value: T)

  lemma MulLe(x: int, y: int, s: nat)
    requires x <= y
    ensures x * s <= y * s
  {
  }
}
