/**
 What several parts of the daemon share: optional values, C's 32-bit integers, and the
 states a volume can be in (Volume.h).
 */
module Basics {

  datatype Option<+T> = None | Some(value: T)

  const TWO_TO_THE_32 := 0x1_0000_0000

  type u32 = n: int | 0 <= n < 0x1_0000_0000

  // The value of an unsigned and of a signed 32-bit integer that n is converted to
  function U32(n: int): u32 { n % 0x1_0000_0000 }

  function I32(n: int): int { if U32(n) < 0x8000_0000 then U32(n) else U32(n) - 0x1_0000_0000 }

  datatype VState = NoMedia | Idle | Pending | Checking | Mounted | Unmounting | Formatting | Shared
}
