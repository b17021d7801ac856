/** Java's fixed-width integer types, written out over Dafny's unbounded `int`.
    A Java `byte` is kept as its bit pattern (0..255); `short` and `int` keep
    their signed two's-complement range. */
module JavaTypes {

  newtype uint8 = x: int | 0 <= x < 0x100
  newtype int16 = x: int | -0x8000 <= x < 0x8000
  newtype int32 = x: int | -0x8000_0000 <= x < 0x8000_0000

  const INT32_MIN: int32 := -0x8000_0000
  const INT32_MAX: int32 := 0x7FFF_FFFF

  /** The bit pattern of a short, read as an unsigned 16-bit number. */
  function Unsigned16(x: int16): (u: int)
    ensures 0 <= u < 0x1_0000
    ensures (u - x as int) % 0x1_0000 == 0
  {
    if x < 0 then x as int + 0x1_0000 else x as int
  }

  /** The short whose bit pattern is the unsigned 16-bit number `u`. */
  function Signed16(u: int): (x: int16)
    requires 0 <= u < 0x1_0000
    ensures Unsigned16(x) == u
  {
    if u < 0x8000 then u as int16 else (u - 0x1_0000) as int16
  }

  lemma Signed16OfUnsigned16(x: int16)
    ensures Signed16(Unsigned16(x)) == x
  {
  }

  /** The bit pattern of an int, read as an unsigned 32-bit number. */
  function Unsigned32(x: int32): (u: int)
    ensures 0 <= u < 0x1_0000_0000
    ensures (u - x as int) % 0x1_0000_0000 == 0
  {
    if x < 0 then x as int + 0x1_0000_0000 else x as int
  }

  /** The int whose bit pattern is the unsigned 32-bit number `u`. */
  function Signed32(u: int): (x: int32)
    requires 0 <= u < 0x1_0000_0000
    ensures Unsigned32(x) == u
  {
    if u < 0x8000_0000 then u as int32 else (u - 0x1_0000_0000) as int32
  }

  lemma Signed32OfUnsigned32(x: int32)
    ensures Signed32(Unsigned32(x)) == x
  {
  }

  /** Java's `a + b` on ints: the exact sum, wrapped around into 32 bits. */
  function AddInt(a: int32, b: int32): (r: int32)
    ensures (r as int - (a as int + b as int)) % 0x1_0000_0000 == 0
    ensures INT32_MIN as int <= a as int + b as int <= INT32_MAX as int ==> r as int == a as int + b as int
  {
    Signed32((a as int + b as int) % 0x1_0000_0000)
  }

  /** Adding one to an int steps up by one, except at the top where it wraps to the bottom. */
  lemma AddOneWraps(a: int32)
    ensures a < INT32_MAX ==> AddInt(a, 1) as int == a as int + 1
    ensures a == INT32_MAX ==> AddInt(a, 1) == INT32_MIN
  {
  }

  /** Java's `(byte)(b - 1)` on an octet: one less, and 0 wraps around to 255. */
  function DecrementOctet(b: uint8): (r: uint8)
    ensures b > 0 ==> r as int == b as int - 1
    ensures b == 0 ==> r == 0xFF
    ensures r == 0 <==> b == 1
  {
    ((b as int + 0xFF) % 0x100) as uint8
  }
}
