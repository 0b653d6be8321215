# Level.h range helpers, verified in Dafny

This project models the two numeric helpers of the e-bike throttle firmware's
`Con_Acelerador_DAC_Millis_ProgNL_6kmh/Level.h`:

- `nivelarRango(value, minValue, maxValue)` levels a variable passed by
  reference into `[minValue, maxValue]`. The lower bound is tested first; the
  upper bound is tested only in the `else if`, and a value already inside the
  range is not written at all. It exists in identical `int` and `long`
  overloads (and a `float` one, left out).
- `comparaConTolerancia(valor, valorReferencia, toleranciaValor2)` is true
  when `valor` lies strictly between `valorReferencia - toleranciaValor2` and
  `valorReferencia + toleranciaValor2`; the tolerance is a `byte`.

Files:

- `machine_types.dfy` (module `MachineTypes`): the AVR integer widths —
  16-bit `int` (`Int16`), 32-bit `long` (`Int32`), 8-bit unsigned `byte`
  (`Byte`) — as range-restricted mathematical integers, and `Dist`.
- `level.dfy` (module `Level`): the helpers. The by-reference update is a
  `Write` value (`NoWrite` or `Store(bound)`) plus the value the variable holds
  afterwards; `NivelarRangoInt` and `NivelarRangoLong` are the two overloads at
  their machine widths, sharing one definition over `int`.
- `level_properties.dfy` (module `LevelProperties`): lemmas relating calls to
  each other and to independent definitions — levelling returns the unique
  nearest point of the range, idempotence holds exactly when the bounds are
  ordered, repeated levelling with inverted bounds alternates between them, and
  the tolerance test is the fixed-point test of levelling into
  `[ref - t + 1, ref + t - 1]`.

With inverted bounds (`minValue > maxValue`) `nivelarRango` sends every value
below `minValue` to `minValue` and every other value to `maxValue`; a second
call then moves it to the other bound, so the helper is neither idempotent nor
monotone there. The firmware gives no sign of calling it with inverted bounds;
the lemmas record the behaviour as written.

## Model

| member | source | states |
|---|---|---|
| Level.NivelarRangoWrite | Con_Acelerador_DAC_Millis_ProgNL_6kmh/Level.h:3-11 | nothing is written exactly when the value is already within `[minValue, maxValue]`; otherwise the stored value is one of the two bounds |
| Level.NivelarRango | Con_Acelerador_DAC_Millis_ProgNL_6kmh/Level.h:3-11 | with ordered bounds the result lies in `[minValue, maxValue]`; the value is kept iff it was already in range; the result is always the value or one of the bounds |
| Level.NivelarRangoInt | Con_Acelerador_DAC_Millis_ProgNL_6kmh/Level.h:3-11 | the `int` overload over 16-bit values: result stays a 16-bit value, lies in the range when the bounds are ordered, and equals the input iff the input was in range |
| Level.NivelarRangoLong | Con_Acelerador_DAC_Millis_ProgNL_6kmh/Level.h:13-21 | the `long` overload over 32-bit values, with the same guarantees as the `int` one |
| Level.ComparaConTolerancia | Con_Acelerador_DAC_Millis_ProgNL_6kmh/Level.h:33-38 | true iff the distance between value and reference is strictly less than the byte tolerance, provided the band's ends fit in a 16-bit `int` |
| LevelProperties.NivelarRangoIsNearest | Con_Acelerador_DAC_Millis_ProgNL_6kmh/Level.h:3-11 | with ordered bounds the result is a point of the range at least as close to the value as every other point of the range |
| LevelProperties.NearestIsNivelarRango | Con_Acelerador_DAC_Millis_ProgNL_6kmh/Level.h:3-11 | any nearest point of the range is the result of levelling, so the nearest point is unique |
| LevelProperties.OutOfRangeTakesBound | Con_Acelerador_DAC_Millis_ProgNL_6kmh/Level.h:5-9 | a value below the minimum becomes exactly the minimum; a value above the maximum and not below the minimum becomes exactly the maximum |
| LevelProperties.LowerBoundTakesPrecedence | Con_Acelerador_DAC_Millis_ProgNL_6kmh/Level.h:5-9 | with inverted bounds a value below the minimum becomes the minimum (not the maximum) and every other value becomes the maximum |
| LevelProperties.IdempotentIffOrderedBounds | Con_Acelerador_DAC_Millis_ProgNL_6kmh/Level.h:3-11 | levelling twice equals levelling once if and only if `minValue <= maxValue` |
| LevelProperties.NivelarRangoMonotone | Con_Acelerador_DAC_Millis_ProgNL_6kmh/Level.h:3-11 | with ordered bounds, levelling preserves the order of two values |
| LevelProperties.InvertedBoundsBreakMonotonicity | Con_Acelerador_DAC_Millis_ProgNL_6kmh/Level.h:5-9 | with inverted bounds, `minValue - 1` is levelled above `minValue` |
| LevelProperties.ReapplyStable | Con_Acelerador_DAC_Millis_ProgNL_6kmh/Level.h:3-11 | with ordered bounds, any positive number of successive calls on the same variable gives the result of one call |
| LevelProperties.ReapplyAlternates | Con_Acelerador_DAC_Millis_ProgNL_6kmh/Level.h:5-9 | with inverted bounds, successive calls alternate between the two bounds forever, starting from the bound the first call picks |
| LevelProperties.LongOverloadAgreesWithInt | Con_Acelerador_DAC_Millis_ProgNL_6kmh/Level.h:13-21 | the `long` overload and the `int` overload give the same result on every 16-bit input |
| LevelProperties.ToleranceBoundsExclusive | Con_Acelerador_DAC_Millis_ProgNL_6kmh/Level.h:37 | `ref + t` and `ref - t` are outside the band; `ref + t - 1` and `ref - t + 1` are inside it when `t >= 1` |
| LevelProperties.ZeroToleranceMatchesNothing | Con_Acelerador_DAC_Millis_ProgNL_6kmh/Level.h:37 | with tolerance 0 the result is false for every value, the reference included |
| LevelProperties.ToleranceReflexiveIffPositive | Con_Acelerador_DAC_Millis_ProgNL_6kmh/Level.h:37 | a value is within tolerance of itself iff the tolerance is at least 1 |
| LevelProperties.ToleranceSymmetric | Con_Acelerador_DAC_Millis_ProgNL_6kmh/Level.h:37 | swapping value and reference does not change the result |
| LevelProperties.ToleranceMonotone | Con_Acelerador_DAC_Millis_ProgNL_6kmh/Level.h:37 | a match under a tolerance stays a match under any larger tolerance |
| LevelProperties.ToleranceIsClampFixedPoint | Con_Acelerador_DAC_Millis_ProgNL_6kmh/Level.h:37 | within tolerance `t` of `ref` iff levelling into `[ref - t + 1, ref + t - 1]` leaves the value unchanged |

## Left out

- The `float` overload of `nivelarRango` (Level.h:23-31): same shape as the integer ones, but IEEE comparisons with NaN fall through both tests; floating point is not modelled.
- Level.ComparaConTolerancia: requires `valorReferencia ± toleranciaValor2` to fit in a 16-bit `int`. Outside that the C sums overflow, which is undefined behaviour, so no wrap-around is modelled.
- Machine-width wrap-around in general: values are mathematical integers restricted to their C type's range; `nivelarRango` does no arithmetic, so its results always stay in range.
- The configuration headers (`config.h`, `config_sincrucero.h`, `config_continuo.h` and the two other variants): plain data with default values and no behaviour; the value ranges their comments mention are not enforced by any code.
- The control engine those parameters drive (cadence detection, cruise control, walk assist, progressive ramps, the DAC output loop): it is not part of this model, because none of its code is present.
- I/O: DAC detection and I2C writes, buzzer tones and serial logging.
