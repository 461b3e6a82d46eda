/** Machine integer ranges and C conversions used by the firmware (ESP32, 32-bit `size_t`). */
module Types {

  const UINT8_LIMIT: int := 0x100
  const UINT16_LIMIT: int := 0x1_0000
  const UINT32_LIMIT: int := 0x1_0000_0000
  const UINT64_LIMIT: int := 0x1_0000_0000_0000_0000
  const INT32_MIN: int := -0x8000_0000
  const INT32_MAX: int := 0x7FFF_FFFF

  type byte = x: int | 0 <= x < UINT8_LIMIT
  type uint8 = x: int | 0 <= x < UINT8_LIMIT
  type uint16 = x: int | 0 <= x < UINT16_LIMIT
  type uint32 = x: int | 0 <= x < UINT32_LIMIT
  type int32 = x: int | INT32_MIN <= x <= INT32_MAX

  /** The conventional null-or-value wrapper, used for C addresses that may be null. */
  datatype Option<+T> = None | Some(value: T)

  function Min(a: int, b: int): (m: int)
    ensures m <= a && m <= b && (m == a || m == b)
  {
    if a <= b then a else b
  }

  /** Conversion of any integer to `uint16_t`: keeps the low 16 bits. */
  function ToUint16(x: int): (r: uint16)
    ensures (x - r) % UINT16_LIMIT == 0
    ensures 0 <= x < UINT16_LIMIT ==> r == x
  {
    x % UINT16_LIMIT
  }

  /** Conversion of an `int` to `uint32_t`, which is also what a negative `int` becomes when it
      meets an unsigned 32-bit operand: a negative value wraps to `x + 2^32`. */
  function ToUint32(x: int32): (r: uint32)
    ensures (x - r) % UINT32_LIMIT == 0
    ensures 0 <= x ==> r == x
  {
    if x < 0 then x + UINT32_LIMIT else x
  }

  /** Conversion of an `int` to `uint64_t`, as when it is compared with a `uint64_t` value. */
  function ToUint64(x: int32): (r: nat)
    ensures r < UINT64_LIMIT && (x - r) % UINT64_LIMIT == 0
    ensures 0 <= x ==> r == x
  {
    if x < 0 then x + UINT64_LIMIT else x
  }

  /** `a - b` in unsigned 32-bit arithmetic: wraps below zero. */
  function SubUint32(a: uint32, b: uint32): (r: uint32)
    ensures (a - b - r) % UINT32_LIMIT == 0
    ensures b <= a ==> r == a - b
  {
    if b <= a then a - b else a - b + UINT32_LIMIT
  }

  /** Conversion of a 32-bit unsigned value (`size_t` on this target) to `int`. */
  function ToInt32(x: uint32): (r: int32)
    ensures (x - r) % UINT32_LIMIT == 0
    ensures x <= INT32_MAX ==> r == x
  {
    if x <= INT32_MAX then x else x - UINT32_LIMIT
  }

  /** Concatenation regrouped: stated once so that proofs need not rediscover it. */
  lemma Assoc<T>(a: seq<T>, b: seq<T>, c: seq<T>)
    ensures a + b + c == a + (b + c)
  {
  }
}
