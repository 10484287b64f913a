/** Fixed-width unsigned arithmetic as C performs it on `uint8_t` and
    `uint32_t`: every result is reduced modulo 2^8 or 2^32. */
module Word32 {

  const U8: nat := 0x100
  const U32: nat := 0x1_0000_0000

  type u8 = x: nat | x < U8
  type u16 = x: nat | x < 0x1_0000
  type u32 = x: nat | x < U32

  /** `a + b` on `uint32_t`. */
  function Add(a: u32, b: u32): (r: u32)
    ensures a + b < U32 ==> r == a + b
    ensures a + b >= U32 ==> r == a + b - U32
  {
    (a + b) % U32
  }

  /** `a - b` on `uint32_t`: wraps below zero. */
  function Sub(a: u32, b: u32): (r: u32)
    ensures b <= a ==> r == a - b
    ensures a < b ==> r == U32 + a - b
  {
    (a - b) % U32
  }

  /** `a * b` on `uint32_t`. */
  function Mul(a: u32, b: u32): (r: u32)
    ensures a * b < U32 ==> r == a * b
  {
    (a * b) % U32
  }

  /** Assignment of a `uint32_t` to a `uint8_t`: keeps the low eight bits. */
  function Truncate8(a: u32): (r: u8)
    ensures a < U8 ==> r == a
  {
    a % U8
  }
}
