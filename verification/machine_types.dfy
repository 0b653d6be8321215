/** The integer widths of the AVR target the firmware is compiled for.
    On AVR an `int` is 16 bits, a `long` is 32 bits and a `byte` is an
    unsigned 8-bit value. Values are kept as mathematical integers
    restricted to the range of their C type; no wrap-around is modelled. */
module MachineTypes {

  /** `x` fits in an AVR `int`. */
  predicate InInt16(x: int) {
    -0x8000 <= x <= 0x7FFF
  }

  /** AVR `int` */
  type Int16 = x: int | -0x8000 <= x <= 0x7FFF

  /** AVR `long` */
  type Int32 = x: int | -0x8000_0000 <= x <= 0x7FFF_FFFF

  /** Arduino `byte` (uint8_t) */
  type Byte = x: int | 0 <= x <= 0xFF

  /** Distance between two integers. */
  function Dist(a: int, b: int): (d: nat)
    ensures d == 0 <==> a == b
    ensures a + d == b || b + d == a
  {
    if a >= b then a - b else b - a
  }
}
