/** The numeric helpers of Level.h.
    `nivelarRango` levels a variable into [minValue, maxValue] in place; it has
    identical `int` and `long` overloads. `comparaConTolerancia` tells whether
    a value lies strictly inside a tolerance band around a reference. */
module Level {
  import opened MachineTypes

  /** What `nivelarRango` does to the variable it receives by reference:
      it leaves it alone, or it stores one of the two bounds into it. */
  datatype Write = NoWrite | Store(stored: int)

  /** The variable's value once the write has happened. */
  function ValueAfter(w: Write, value: int): int {
    match w
    case NoWrite => value
    case Store(v) => v
  }

  /** The write `nivelarRango` performs. The lower bound is tested first and
      the upper bound only when the lower test fails. */
  function NivelarRangoWrite(value: int, minValue: int, maxValue: int): (w: Write)
    ensures w == NoWrite <==> minValue <= value <= maxValue
    ensures w.Store? ==> w.stored == minValue || w.stored == maxValue
  {
    if value < minValue then Store(minValue)
    else if value > maxValue then Store(maxValue)
    else NoWrite
  }

  /** The variable's value after `nivelarRango(value, minValue, maxValue)`,
      over mathematical integers; both integer overloads share it. */
  function NivelarRango(value: int, minValue: int, maxValue: int): (r: int)
    ensures minValue <= maxValue ==> minValue <= r <= maxValue
    ensures r == value <==> minValue <= value <= maxValue
    ensures r == value || r == minValue || r == maxValue
  {
    ValueAfter(NivelarRangoWrite(value, minValue, maxValue), value)
  }

  /** The `int` overload: arguments and result are AVR 16-bit ints. The result
      is always one of the arguments, so it never leaves the type. */
  function NivelarRangoInt(value: Int16, minValue: Int16, maxValue: Int16): (r: Int16)
    ensures minValue <= maxValue ==> minValue <= r <= maxValue
    ensures r == value <==> minValue <= value <= maxValue
  {
    NivelarRango(value, minValue, maxValue)
  }

  /** The `long` overload: arguments and result are AVR 32-bit longs. */
  function NivelarRangoLong(value: Int32, minValue: Int32, maxValue: Int32): (r: Int32)
    ensures minValue <= maxValue ==> minValue <= r <= maxValue
    ensures r == value <==> minValue <= value <= maxValue
  {
    NivelarRango(value, minValue, maxValue)
  }

  /** `comparaConTolerancia`: is `valor` strictly inside the band
      (valorReferencia - toleranciaValor2, valorReferencia + toleranciaValor2)?
      The byte tolerance is promoted to a 16-bit `int` before the sums, which
      overflow (undefined behaviour in C) unless both ends fit in an `int`. */
  function ComparaConTolerancia(valor: Int16, valorReferencia: Int16, toleranciaValor2: Byte): (r: bool)
    requires InInt16(valorReferencia - toleranciaValor2)
    requires InInt16(valorReferencia + toleranciaValor2)
    ensures r <==> Dist(valor, valorReferencia) < toleranciaValor2
  {
    valor > valorReferencia - toleranciaValor2 && valor < valorReferencia + toleranciaValor2
  }
}
