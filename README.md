# LightUnits in Dafny

LightUnits is a header-only C++ library of physical units, meant for embedded
targets. A quantity such as a current is a `BaseUnit<TypeTag, T_Representation>`.
It holds one raw integer (`m_value`), denominated in a fixed SI base prefix (micro,
milli, one or kilo) and stored in a fixed integer type. The library offers:

- arithmetic and comparison between quantities of one unit type;
- construction from and read-out in any prefix, through a power-of-ten rescale
  (`MultiplyWithExponent`) that multiplies or divides with C++ truncation;
- cross-dimension products and quotients (`UnitMult`, `UnitDiv`). These widen the
  raw values through an ordered registry of integer types (`ValueSystem`), correct
  the result by the decades between the prefixes, and narrow it back.

The integral example defines amperes as 32-bit micro-amperes, volts as 32-bit
milli-volts and ohms as 32-bit milli-ohms. It adds user-defined literals, Ohm's law
in both directions and the parallel connection of two resistors.

The model follows the C++ arithmetic the library relies on:

- `Integers` models fixed-width types, `static_cast` as a two's-complement
  reduction (`Wrap`), and `/` truncating toward zero (`TruncDiv`).
- `Arithmetic` models integral promotion, the usual arithmetic conversions, and
  undefined signed overflow. Overflow is a precondition (`CanApply`) and unsigned
  arithmetic wraps.
- A quantity's meaning is `Quantity.Magnitude()`: its amount as a whole number of
  millionths of the unscaled unit.
- Every rescale, product and quotient is proved to give that amount exactly, or
  cut toward zero by less than one step of the result (`TowardZeroWithin`). Each
  such statement holds when no intermediate cast changes a value. Where a cast
  does change a value, the contracts give the wrapped raw value instead.

`BaseUnit` is a class because `operator=`, `+=` and `-=` overwrite `m_value` in
place. The values the other operators build are the datatype `Quantity`. The unit
tests are lemmas (and, for the assignment tests, methods that run through the
class). The conversion tests are stated for every choice of numbers for which
Ohm's law holds exactly, with the tests' own literals as one instance each.

Three facts about the code that a reader may not expect:

- Constructing with `From<s>` and reading back with `To<s>` does not give the value
  back for every prefix `s`. It truncates when `s` is finer than the base prefix
  (`Units.FromToTruncates`).
- The test case `Division_Explore` (`test/ExampleConversionTest.cpp:20-25`) checks
  one quotient through `UnitDiv`, `1_mV / 2_Ohm == 500_uA`. None of the test cases
  uses the parallel connection `operator||`.
- `ExponentToMultiplier<n>` (`include/LightUnits/MultiplyWithExponent.hpp:26-39`)
  is a recursion on `n` down to the specialisation for zero, with an `int`
  enumerator at every step. The initializer for `n == 10` overflows `int`, so a
  rescale by more than nine decades does not compile
  (`Exponents.MultiplierInitializerOverflowsAtTen`).

## Model

| member | source | states |
|---|---|---|
| Prefixes.Exponent | include/LightUnits/Prefix.hpp:21-26 | the four enumerators stand for the powers -6, -3, 0 and 3, all between -6 and 3 and multiples of three |
| Prefixes.ExponentInjective | include/LightUnits/Prefix.hpp:21-26 | distinct prefixes have distinct values, in both directions |
| Prefixes.DecadesDiff | include/LightUnits/Prefix.hpp:36-38 | the decades between two prefixes lie in -9..9, are zero exactly for equal prefixes and positive exactly when the target is finer |
| Prefixes.DecadesDiffAntisymmetric | include/LightUnits/Prefix.hpp:36-38 | rescaling there and back cancels |
| Prefixes.DecadesDiffChain | include/LightUnits/Prefix.hpp:36-38 | rescaling through an intermediate prefix adds up to the direct rescale |
| Prefixes.DecadesDiffMilliToMicro | include/LightUnits/Prefix.hpp:30-34 | the documented example: milli to micro is 3 decades |
| Prefixes.DimensionCorrectionFromMult | include/LightUnits/Prefix.hpp:49-51 | the product correction is the left factor's rescale to the target plus the right factor's exponent, within -15..12 |
| Prefixes.DimensionCorrectionFromMultSymmetric | include/LightUnits/Prefix.hpp:49-51 | the product correction does not depend on the order of the factors |
| Prefixes.DimensionCorrectionFromMultExample | include/LightUnits/Prefix.hpp:42-48 | the documented example U = I * R (I in micro, R and U in milli) needs a correction of -6 |
| Prefixes.DimensionCorrectionFromDiv | include/LightUnits/Prefix.hpp:62-65 | the quotient correction is the dividend's rescale to the target minus the divisor's exponent, within -12..15 |
| Prefixes.DimensionCorrectionFromDivExample | include/LightUnits/Prefix.hpp:55-61 | the documented example I = U / R (U and R in milli, I in micro) needs a correction of 6 |
| Prefixes.DimensionCorrectionsCancel | include/LightUnits/Prefix.hpp:49-65 | dividing by a factor undoes multiplying by it: the two corrections add up to zero |
| Prefixes.FinerResolution | include/LightUnits/Prefix.hpp:67-69 | the result is one of the two prefixes, no coarser than either, and the second one on a tie |
| Exponents.ExponentToMultiplier | include/LightUnits/MultiplyWithExponent.hpp:26-39 | ten to the `n` is at least one |
| Exponents.ExponentToMultiplierAdd | include/LightUnits/MultiplyWithExponent.hpp:26-39 | powers of ten multiply by adding their exponents (proof by induction) |
| Exponents.ExponentToMultiplierMonotone | include/LightUnits/MultiplyWithExponent.hpp:26-39 | a larger exponent never gives a smaller power |
| Exponents.MultiplierFits | include/LightUnits/MultiplyWithExponent.hpp:26-39 | ten to the `n` fits `int` exactly when `n` is at most nine, in both directions |
| Exponents.MultiplierType | include/LightUnits/MultiplyWithExponent.hpp:34-39 | the enumerator of `ExponentToMultiplier<n>` takes part in arithmetic as a signed 32-bit `int` that holds its value, for every `n` that compiles (at most nine) |
| Exponents.MultiplierInitializerOverflowsAtTen | include/LightUnits/MultiplyWithExponent.hpp:34-39 | the enumerator for nine fits `int`, and ten times it, the initializer for ten, does not |
| Exponents.CanMultiplyWithExponentAs | include/LightUnits/MultiplyWithExponent.hpp:41-51 | a rescale that compiles and is well defined is one by at most nine decades |
| Exponents.MultiplyWithExponent | include/LightUnits/MultiplyWithExponent.hpp:41-51 | a non-negative exponent multiplies exactly; a negative one cuts the value toward zero to a multiple of the power, by less than the power, never growing it or changing its sign |
| Exponents.MultiplyWithExponentAs | include/LightUnits/MultiplyWithExponent.hpp:41-51 | computed in C++'s types, the rescale of a value of `t` is the mathematical rescale cast to `t` |
| Exponents.CanMultiplyWithExponentAsIfFits | include/LightUnits/MultiplyWithExponent.hpp:41-51 | a rescale by at most nine decades whose mathematical result fits the type is well defined |
| Exponents.MultiplyWithExponentZero | include/LightUnits/MultiplyWithExponent.hpp:41-45 | exponent zero leaves the value alone |
| Exponents.MultiplyWithExponentUpDown | include/LightUnits/MultiplyWithExponent.hpp:41-51 | scaling up and back down by the same decades returns the value |
| Exponents.MultiplyWithExponentComposeUp | include/LightUnits/MultiplyWithExponent.hpp:41-45 | two upward rescales compose into one by the summed exponent |
| Exponents.MultiplyWithExponentComposeDown | include/LightUnits/MultiplyWithExponent.hpp:47-51 | two downward rescales compose into one by the summed exponent: truncating twice loses no more than once |
| Exponents.MultiplyWithExponentDownFits | include/LightUnits/MultiplyWithExponent.hpp:47-51 | a downward rescale never leaves the range of its input's type |
| Integers.Wrap | example/IntegralUnits/Ampere.hpp:37 | `static_cast` gives a value of the target type, congruent to the input modulo `2^bits`, and the input itself when it fits |
| Integers.WrapUnique | example/IntegralUnits/Ampere.hpp:37 | the cast is the only value of the range congruent to its input |
| Integers.WrapPeriodic | example/IntegralUnits/Ampere.hpp:37 | inputs a multiple of `2^bits` apart cast to the same value |
| Integers.TruncDiv | include/LightUnits/MultiplyWithExponent.hpp:50 | C++ `/`: the quotient times the divisor is the dividend cut toward zero by less than the divisor, and the quotient is no larger than the dividend |
| Integers.TruncDivUnique | include/LightUnits/MultiplyWithExponent.hpp:50 | any quotient with that property is the C++ quotient |
| Integers.TruncDivNested | include/LightUnits/GenericConversions.hpp:62-64 | dividing by `m` and then by `n` is dividing by `m * n` |
| Arithmetic.Promote | include/LightUnits/BaseUnit.hpp:39-57 | an operand narrower than `int` is computed in `int`, a wider one in its own type |
| Arithmetic.CommonType | include/LightUnits/GenericConversions.hpp:37-39 | the usual arithmetic conversions: the result is one operand's promoted type, at least as wide as both, and unsigned only if an operand is |
| Arithmetic.CanApply | include/LightUnits/GenericConversions.hpp:37-39 | for operands of their types' ranges in a signed common type, a binary operator is well defined exactly when it divides by no zero and its mathematical result fits the common type, in both directions |
| Arithmetic.Widen | include/LightUnits/GenericConversions.hpp:37-39 | a value of one type is a value of any type at least as wide, provided that type is strictly wider when it alone is signed and the value is non-negative when it is unsigned |
| Arithmetic.Apply | include/LightUnits/GenericConversions.hpp:37-39 | a binary operator in C++ lies in the common type's range, and is the mathematical result when that type is signed or the operands are non-negative and the result fits |
| Arithmetic.FitsIsDefined | include/LightUnits/BaseUnit.hpp:39-57 | an operation on two values of one type whose result fits that type is defined and exact |
| Arithmetic.ApplySameType | include/LightUnits/BaseUnit.hpp:39-57 | with both operands of one type and the result stored back, the result is the mathematical one cast to that type |
| Arithmetic.Negate | include/LightUnits/BaseUnit.hpp:48-50 | unary minus yields, after promotion, the negated value wherever the promoted type is signed, and the negation modulo `2^bits` in any case |
| Arithmetic.WrapSubtractAdded | include/LightUnits/BaseUnit.hpp:52-58 | wrapping `x + y` and then subtracting `y` gives `x` back |
| Arithmetic.WrapNegateNegated | include/LightUnits/BaseUnit.hpp:48-50 | wrapping `-x` and negating that gives `x` back |
| ValueSystems.HasElement | include/LightUnits/ValueSystem.hpp:37-45 | true exactly when the type is in the registry |
| ValueSystems.Count | include/LightUnits/ValueSystem.hpp:50-58 | the number of entries |
| ValueSystems.PositionOf | include/LightUnits/ValueSystem.hpp:63-82 | the index of the first occurrence of the type; absence is a precondition, as it does not compile |
| ValueSystems.LargerPositionOf | include/LightUnits/ValueSystem.hpp:84-89 | one of the two positions, and no smaller than either |
| ValueSystems.LargerPositionOfSymmetric | include/LightUnits/ValueSystem.hpp:84-89 | the order of the two types does not matter |
| ValueSystems.Element | include/LightUnits/ValueSystem.hpp:94-102 | the entry at the index |
| ValueSystems.ElementOfPosition | include/LightUnits/ValueSystem.hpp:63-102 | looking up the position of a type gives the type back |
| ValueSystems.MultiplicationResultHelper | include/LightUnits/ValueSystem.hpp:105-108 | the product type is an entry of the registry |
| ValueSystems.LargerType | include/LightUnits/ValueSystem.hpp:110-113 | the widened type is an entry of the registry |
| ValueSystems.WellOrderedAscending | include/LightUnits/ValueSystem.hpp:20-28 | in a registry meeting its documented requirements every later entry has at least double the bits of an earlier one (proof by induction) |
| ValueSystems.WellOrderedPositions | include/LightUnits/ValueSystem.hpp:20-28 | such a registry has no repeated entry |
| ValueSystems.LargerTypeWider | include/LightUnits/ValueSystem.hpp:110-113 | the widened type has at least double the bits and the same signedness |
| ValueSystems.MultiplicationResultWider | include/LightUnits/ValueSystem.hpp:105-108 | the product type has at least the bits of both factors together and their signedness |
| ValueSystems.MultiplicationResultFits | include/LightUnits/ValueSystem.hpp:105-108 | the product of any two values of the factor types is representable in the product type |
| IntegralValueSystems.IntegralValueSystemWellOrdered | example/IntegralUnits/IntegralValueSystem.hpp:26 | the registry `int8, int16, int, int64` meets the documented requirements and lists four distinct types |
| IntegralValueSystems.CIntIsInt32 | example/IntegralUnits/IntegralValueSystem.hpp:28-30 | `int` has the size, minimum and maximum of `int32_t` |
| IntegralValueSystems.IntegralWidening | example/IntegralUnits/IntegralValueSystem.hpp:26 | a product of two 32-bit values, and a widened 32-bit dividend, are computed in 64 bits |
| Units.Quantity.Magnitude | include/LightUnits/BaseUnit.hpp:146-153 | the amount `m_value` stands for, counted in millionths, is a whole number of base-prefix steps with the raw value's sign, and zero exactly for a zero raw value |
| Units.Step | include/LightUnits/BaseUnit.hpp:25 | one raw step of a prefix counts at least one millionth |
| Units.StepRatio | include/LightUnits/BaseUnit.hpp:120-131 | a coarser step is the finer one times ten to the decades between them |
| Units.From | include/LightUnits/BaseUnit.hpp:120-125 | the stored value is the rescaled argument cast to the storage type; when that fits, its amount is the argument's cut toward zero by less than one base step, and exact from a prefix no finer than the base |
| Units.RescaleDefined | include/LightUnits/BaseUnit.hpp:120-131 | a rescale whose result fits the storage type is well defined |
| Units.RescaleMagnitude | include/LightUnits/BaseUnit.hpp:120-131 | as amounts, a rescale cuts toward zero to a whole step of the target prefix, and is exact toward a finer one |
| Units.To | include/LightUnits/BaseUnit.hpp:127-131 | the read-out is the rescaled raw value cast to the storage type; when that fits, it is the amount cut toward zero to a whole target step, exact toward a finer prefix |
| Units.ToBase | include/LightUnits/BaseUnit.hpp:127-131 | reading out in the base prefix gives the raw value |
| Units.FromToBase | include/LightUnits/BaseUnit.hpp:120-131 | constructing and reading back in the base prefix gives the argument |
| Units.FromToRoundTrip | include/LightUnits/BaseUnit.hpp:120-131 | from a prefix no finer than the base, constructing and reading back gives the argument whenever the rescale fits |
| Units.FromToTruncates | include/LightUnits/BaseUnit.hpp:120-131 | from a prefix finer than the base, constructing and reading back cuts the argument toward zero to a multiple of ten to the decades between them |
| Units.Neg | include/LightUnits/BaseUnit.hpp:48-50 | unary minus stores the negated raw value cast to the storage type, and negates the amount where that fits |
| Units.Add | include/LightUnits/BaseUnit.hpp:52-54 | `+` stores the raw sum cast to the storage type, and adds the amounts where that fits |
| Units.Sub | include/LightUnits/BaseUnit.hpp:56-58 | `-` stores the raw difference cast to the storage type, and subtracts the amounts where that fits |
| Units.NegFits | include/LightUnits/BaseUnit.hpp:48-50 | where the negated raw value fits, unary minus is defined and exact |
| Units.AddFits | include/LightUnits/BaseUnit.hpp:52-54 | where the raw sum fits, `+` is defined and exact |
| Units.SubFits | include/LightUnits/BaseUnit.hpp:56-58 | where the raw difference fits, `-` is defined and exact |
| Units.NegInvolutive | include/LightUnits/BaseUnit.hpp:48-50 | negating twice gives the quantity back, also where the storage type wraps |
| Units.AddCommutative | include/LightUnits/BaseUnit.hpp:52-54 | both orders of the operands give the same sum |
| Units.SubUndoesAdd | include/LightUnits/BaseUnit.hpp:52-58 | subtracting what was added gives the quantity back, also where the storage type wraps |
| Units.MulScalar | include/LightUnits/BaseUnit.hpp:61-63 | the raw product with the scalar cast to the storage type, which scales the amount where it fits |
| Units.ScalarMul | include/LightUnits/BaseUnit.hpp:65-67 | the same product with the scalar on the left |
| Units.DivScalar | include/LightUnits/BaseUnit.hpp:84-86 | the truncated raw quotient cast to the storage type; where it fits, the result times the scalar is the amount cut toward zero by less than the scalar's size times one step |
| Units.Eq | include/LightUnits/BaseUnit.hpp:94-96 | true exactly for equal quantities, and exactly for equal amounts |
| Units.Ne | include/LightUnits/BaseUnit.hpp:98-100 | true exactly for different quantities, and exactly for different amounts |
| Units.Lt | include/LightUnits/BaseUnit.hpp:102-104 | true exactly when the left amount is smaller |
| Units.Gt | include/LightUnits/BaseUnit.hpp:106-108 | true exactly when the left amount is larger |
| Units.Le | include/LightUnits/BaseUnit.hpp:110-112 | true exactly when the left amount is no larger |
| Units.Ge | include/LightUnits/BaseUnit.hpp:114-116 | true exactly when the left amount is no smaller |
| Units.MagnitudeOrder | include/LightUnits/BaseUnit.hpp:94-116 | raw values of one unit are ordered, and equal, exactly as their amounts are |
| Units.Trichotomy | include/LightUnits/BaseUnit.hpp:94-116 | exactly one of `<`, `==`, `>` holds, and `<=`, `>=`, `!=` agree with them |
| Units.Max | include/LightUnits/BaseUnit.hpp:134-137 | the largest value of the storage type |
| Units.Min | include/LightUnits/BaseUnit.hpp:139-142 | the smallest value of the storage type |
| Units.LimitsBound | include/LightUnits/BaseUnit.hpp:134-142 | every quantity lies between `min()` and `max()` |
| Units.LimitsReadBack | include/LightUnits/BaseUnit.hpp:127-142 | `max()` and `min()` read back in the base prefix are the storage type's limits |
| Units.BaseUnit.constructor | include/LightUnits/BaseUnit.hpp:146-149 | the variable holds the given quantity |
| Units.BaseUnit.Assign | include/LightUnits/BaseUnit.hpp:32-35 | the variable takes over the right-hand side's value (as it was before, should the two alias) and returns itself |
| Units.BaseUnit.AddAssign | include/LightUnits/BaseUnit.hpp:38-41 | the variable holds what `+` gives for its old value and the right-hand side, and returns itself |
| Units.BaseUnit.SubAssign | include/LightUnits/BaseUnit.hpp:43-46 | the variable holds what `-` gives for its old value and the right-hand side, and returns itself |
| GenericConversions.RawProduct | include/LightUnits/GenericConversions.hpp:37-39 | the product of the widened left raw value and the right one lies in the type it is computed in |
| GenericConversions.UnitMult | include/LightUnits/GenericConversions.hpp:33-48 | when no intermediate cast changes a value, the result holds the corrected product cast to its storage type; when that fits, its amount times a million is the product of the amounts cut toward zero to a whole result step, and exact for a non-negative correction |
| GenericConversions.MultMagnitude | include/LightUnits/GenericConversions.hpp:37-43 | the corrected raw product, as an amount, is the product of the amounts cut toward zero to a result step |
| GenericConversions.MultSteps | include/LightUnits/GenericConversions.hpp:41-43 | the correction `10^c` bridges the product of the operands' steps and the result's step |
| GenericConversions.CanUnitMult | include/LightUnits/GenericConversions.hpp:33-48 | a product that compiles and is well defined corrects by at most nine decades |
| GenericConversions.MicroTimesMicroIntoKiloRejected | include/LightUnits/GenericConversions.hpp:33-48 | micro times micro into a kilo result needs a correction of -15 decades, so that product never compiles |
| GenericConversions.UnitMultSymmetric | include/LightUnits/GenericConversions.hpp:33-48 | swapping the operands with their prefixes gives the same result |
| GenericConversions.UnitMultIntermediatesFit | include/LightUnits/GenericConversions.hpp:33-48 | in a well-ordered signed registry, with a correction that only scales down and by at most nine decades, no intermediate cast changes a value and the product is defined |
| GenericConversions.RawDividend | include/LightUnits/GenericConversions.hpp:59-62 | the corrected widened dividend lies in the widened type |
| GenericConversions.UnitDiv | include/LightUnits/GenericConversions.hpp:54-68 | the divisor is never zero; when no intermediate cast changes a value, the result holds the quotient cast to its storage type; when that fits, the result times the divisor is the dividend times a million cut toward zero by less than the divisor times one result step |
| GenericConversions.DivisorNonZero | include/LightUnits/GenericConversions.hpp:64 | a divisor that does not convert to zero is not zero |
| GenericConversions.CanUnitDiv | include/LightUnits/GenericConversions.hpp:54-68 | a quotient that compiles and is well defined corrects by at most nine decades |
| GenericConversions.UnitDivIntermediatesFit | include/LightUnits/GenericConversions.hpp:54-68 | for signed operands in a well-ordered registry and a correction of at most nine decades, a corrected dividend that fits the widened type is all it takes for no intermediate cast to change a value |
| GenericConversions.DivMagnitude | include/LightUnits/GenericConversions.hpp:61-64 | the corrected truncated quotient, as an amount, is the exact quotient cut toward zero |
| GenericConversions.DivSteps | include/LightUnits/GenericConversions.hpp:61-62 | the correction `10^c` bridges the dividend's step and the product of the divisor's and the result's steps |
| AmpereUnits.uA | example/IntegralUnits/Ampere.hpp:35-39 | `n_uA` is `n` cast to 32 bits, in micro-amperes |
| AmpereUnits.mA | example/IntegralUnits/Ampere.hpp:41-45 | `n_mA` is `n` cast to 32 bits, a thousand micro-amperes each |
| AmpereUnits.A | example/IntegralUnits/Ampere.hpp:47-51 | `n_A` is `n` cast to 32 bits, a million micro-amperes each |
| AmpereUnits.MilliAmpereIsThousandMicro | example/IntegralUnits/Ampere.hpp:35-45 | a milli-ampere literal is the micro-ampere literal a thousand times as large |
| AmpereUnits.AmpereIsThousandMilli | example/IntegralUnits/Ampere.hpp:41-51 | an ampere literal is the milli-ampere literal a thousand times as large |
| AmpereUnits.MicroAmpereLiteralWraps | example/IntegralUnits/Ampere.hpp:35-39 | literals `2^32` apart denote the same current, because of the cast |
| VoltUnits.mV | example/IntegralUnits/Volt.hpp:30-34 | `n_mV` is `n` cast to 32 bits, in milli-volts |
| VoltUnits.V | example/IntegralUnits/Volt.hpp:36-40 | `n_V` is `n` cast to 32 bits, a thousand milli-volts each |
| VoltUnits.VoltIsThousandMilli | example/IntegralUnits/Volt.hpp:30-40 | a volt literal is the milli-volt literal a thousand times as large |
| OhmUnits.mOhm | example/IntegralUnits/Ohm.hpp:30-34 | `n_mOhm` is `n` cast to 32 bits, in milli-ohms |
| OhmUnits.Ohms | example/IntegralUnits/Ohm.hpp:36-40 | `n_Ohm` is `n` cast to 32 bits, a thousand milli-ohms each |
| OhmUnits.kOhm | example/IntegralUnits/Ohm.hpp:42-46 | `n_kOhm` is `n` cast to 32 bits, a million milli-ohms each |
| OhmUnits.OhmIsThousandMilli | example/IntegralUnits/Ohm.hpp:30-40 | an ohm literal is the milli-ohm literal a thousand times as large |
| OhmUnits.KiloOhmIsThousandOhms | example/IntegralUnits/Ohm.hpp:36-46 | a kilo-ohm literal is the ohm literal a thousand times as large |
| Conversions.AmpereTimesOhmCompiles | example/IntegralUnits/Conversions.hpp:24-27 | any ampere times any ohm, in either order, is defined and changes no value before the final cast, and the corrected product is the raw product divided by a million |
| Conversions.AmpereTimesOhm | example/IntegralUnits/Conversions.hpp:24-27 | the volts are the raw product divided by a million, cast to 32 bits; when that fits, the exact product cut toward zero to a whole milli-volt |
| Conversions.OhmTimesAmpere | example/IntegralUnits/Conversions.hpp:29-32 | the reversed product is the same as `UnitMult` in this order |
| Conversions.VoltDivOhmCompiles | example/IntegralUnits/Conversions.hpp:34-37 | any volt over a non-zero ohm is defined and changes no value before the final cast, and the quotient is the milli-volts times a million over the milli-ohms |
| Conversions.VoltDivOhm | example/IntegralUnits/Conversions.hpp:34-37 | the micro-amperes are that quotient cast to 32 bits; when it fits, current times resistance is the voltage cut toward zero by less than one micro-ampere times the resistance |
| Conversions.Parallel | example/IntegralUnits/Conversions.hpp:39-46 | the raw product over the raw sum, truncated and cast to 32 bits; when it fits, the result times the sum is the product cut toward zero by less than the sum |
| Conversions.ParallelOperations | example/IntegralUnits/Conversions.hpp:43-45 | the 64-bit product, the 32-bit sum and the 64-bit quotient are defined and exact |
| Conversions.ParallelSymmetric | example/IntegralUnits/Conversions.hpp:39-46 | the order of the resistors does not matter |
| Conversions.ParallelBelowBoth | example/IntegralUnits/Conversions.hpp:39-46 | two positive resistors in parallel give a resistance that never wraps and is no larger than either |
| Conversions.ParallelEqualHalves | example/IntegralUnits/Conversions.hpp:39-46 | two equal resistors give half the resistance, truncated |
| Conversions.ParallelSumOverflows | example/IntegralUnits/Conversions.hpp:45 | two 1.5 mega-ohm resistors overflow the `int` sum although the parallel value fits |
| Conversions.ParallelWidened | example/IntegralUnits/Conversions.hpp:39-46 | the parallel connection with the sum widened too, defined for every pair with a non-zero sum |
| Conversions.WidenedParallelOperations | example/IntegralUnits/Conversions.hpp:43-45 | with the sum widened, the product, the sum and the quotient are defined and exact for any two 32-bit values |
| Conversions.ParallelWidenedAgrees | example/IntegralUnits/Conversions.hpp:39-46 | wherever the `int` sum does not overflow, the widened connection is the library's |
| Conversions.ParallelWidenedBelowBoth | example/IntegralUnits/Conversions.hpp:39-46 | any two positive resistors, however large, give a resistance that never wraps and is no larger than either |
| ValueSystemTest.MembershipChecks | test/ValueSystemTest.cpp:12-18 | the membership assertions on the empty, one- and two-entry registries |
| ValueSystemTest.PositionChecks | test/ValueSystemTest.cpp:20-25 | the position and element assertions |
| ValueSystemTest.MultiplicationResultChecks | test/ValueSystemTest.cpp:27-39 | the product types chosen in the four-entry registry |
| BaseUnitTest.Create | test/BaseUnitTest.cpp:25-28 | `Create(val)` stores `val` as is in the 16-bit milli test unit |
| BaseUnitTest.CreatedByFromRawMatchesArgument | test/BaseUnitTest.cpp:30-33 | the created value reads back unchanged |
| BaseUnitTest.Assigned | test/BaseUnitTest.cpp:35-39 | assigning to a variable leaves it holding the right-hand side |
| BaseUnitTest.SimpleAssignmentValueIsStored | test/BaseUnitTest.cpp:35-39 | after `x = Create(b)` the variable holds `b` |
| BaseUnitTest.AddAssigned | test/BaseUnitTest.cpp:41-49 | `x += rhs` leaves the variable holding `x + rhs` |
| BaseUnitTest.SubAssigned | test/BaseUnitTest.cpp:51-59 | `x -= rhs` leaves the variable holding `x - rhs` |
| BaseUnitTest.AdditionAssignmentMatchesBuiltIn | test/BaseUnitTest.cpp:41-49 | `x += Create(b)` equals what the built-in `+=` gives |
| BaseUnitTest.SubtractionAssignmentMatchesBuiltIn | test/BaseUnitTest.cpp:51-59 | `x -= Create(b)` equals what the built-in `-=` gives |
| BaseUnitTest.UnaryMinusValueIsInverted | test/BaseUnitTest.cpp:61-67 | negating `a` gives `-a` and negating `-a` gives `a` |
| BaseUnitTest.AdditionResultIsSum | test/BaseUnitTest.cpp:69-72 | `Create(a) + Create(b)` equals `Create(a + b)` |
| BaseUnitTest.SubtractionResultIsDiff | test/BaseUnitTest.cpp:74-77 | `Create(a) - Create(b)` equals `Create(a - b)` |
| BaseUnitTest.EqualityChecks | test/BaseUnitTest.cpp:87-93 | `a == a` and `a != b` |
| BaseUnitTest.OrderingSums | test/BaseUnitTest.cpp:95-115 | the sums with `epsilon` used by the ordering tests |
| BaseUnitTest.OrderingDifferences | test/BaseUnitTest.cpp:95-115 | the differences with `epsilon` used by the ordering tests |
| BaseUnitTest.LessThanChecks | test/BaseUnitTest.cpp:99-106 | `small < large`, and neither `large < small` nor `small < small` |
| BaseUnitTest.LessThanSumChecks | test/BaseUnitTest.cpp:101 | `small < small + epsilon` |
| BaseUnitTest.LessThanDifferenceChecks | test/BaseUnitTest.cpp:102 | `small - epsilon < small` |
| BaseUnitTest.GreaterThanChecks | test/BaseUnitTest.cpp:108-115 | `large > small`, and neither `large > large` nor `small > large` |
| BaseUnitTest.GreaterThanSumChecks | test/BaseUnitTest.cpp:110 | `large + epsilon > large` |
| BaseUnitTest.GreaterThanDifferenceChecks | test/BaseUnitTest.cpp:111 | `large > large - epsilon` |
| BaseUnitTest.LessOrEqualChecks | test/BaseUnitTest.cpp:117-125 | `small <= small`, not `large <= small`, `large >= large`, not `small >= large` |
| BaseUnitTest.LimitsChecks | test/BaseUnitTest.cpp:141-153 | `max()` and `min()` of the test unit read back as 32767 and -32768 |
| ExampleConversionTest.MilliVoltsOverOhmsAreMicroAmperes | test/ExampleConversionTest.cpp:20-25 | `v_mV / r_Ohm == i_uA` whenever `v * 1000 == i * r` and the literals fit, `1_mV / 2_Ohm == 500_uA` among them |
| ExampleConversionTest.VoltsOverOhmsAreAmperes | test/ExampleConversionTest.cpp:29 | `v_V / r_Ohm == i_A` whenever `v == i * r`, `4_V / 2_Ohm == 2_A` among them |
| ExampleConversionTest.MilliVoltsOverMilliOhmsAreAmperes | test/ExampleConversionTest.cpp:30 | `v_mV / r_mOhm == i_A` whenever `v == i * r`, `4_mV / 2_mOhm == 2_A` among them |
| ExampleConversionTest.MilliVoltsOverOhmsAreMilliAmperes | test/ExampleConversionTest.cpp:31 | `v_mV / r_Ohm == i_mA` whenever `v == i * r`, `4_mV / 2_Ohm == 2_mA` among them |
| ExampleConversionTest.VoltsOverOhmsAreMilliAmperes | test/ExampleConversionTest.cpp:32 | `v_V / r_Ohm == i_mA` whenever `v * 1000 == i * r`, `4_V / 200_Ohm == 20_mA` among them |
| ExampleConversionTest.AmperesTimesOhmsAreVolts | test/ExampleConversionTest.cpp:37-39 | `v_V == i_A * r_Ohm` whenever `v == i * r`, the three volt tests among them |
| ExampleConversionTest.MilliAmperesTimesOhmsAreMilliVolts | test/ExampleConversionTest.cpp:41 | `v_mV == i_mA * r_Ohm` whenever `v == i * r`, `1_mV == 1_mA * 1_Ohm` among them |
| ExampleConversionTest.AmperesTimesMilliOhmsAreMilliVolts | test/ExampleConversionTest.cpp:42 | `v_mV == i_A * r_mOhm` whenever `v == i * r`, `1_mV == 1_A * 1_mOhm` among them |
| ExampleConversionTest.MicroAmperesTimesKiloOhmsAreMilliVolts | test/ExampleConversionTest.cpp:43 | `v_mV == i_uA * r_kOhm` whenever `v == i * r`, `10_mV == 1_uA * 10_kOhm` among them |

## Left out

- The floating-point operators (`BaseUnit.hpp:69-82` and `88-91`) and the tests `UnitTimesFloat` and `FloatTimesUnit`: the model has no floating point or `std::round`.
- The modulo test (`BaseUnitTest.cpp:79-85`): no `operator%` is part of this model, because `BaseUnit.hpp` declares none.
- `std::numeric_limits<TestUnit>` (`BaseUnitTest.cpp:141-153`): that specialisation is not part of this model. Its tests are stated with `max()` and `min()` instead.
- The stream output operators in the tests are left out, because they are I/O.
- The defaulted constructor (`BaseUnit.hpp:29`) is left out, because its `m_value` is uninitialised.
- `Raw()` (`BaseUnit.hpp:151-153`) is not modelled on its own; it is the field `raw`.
- `TypeTags.hpp` is modelled only as the tag's name in `Dimension`. Mixing dimensions is ruled out by the preconditions `a.unit == b.unit`, where C++ rules it out by overload resolution.
- Signed overflow and division by zero are undefined behaviour in C++. They are preconditions here (`CanApply`, `CanMultiplyWithExponentAs`), so the model says nothing about what such a program does.
- A rescale by ten or more decades is ill-formed C++, because the initializer of `ExponentToMultiplier<10>` overflows `int`. `CanMultiplyWithExponentAs` (and with it `CanUnitMult` and `CanUnitDiv`) rules such instantiations out, so the model describes only the ones that compile.
- The model assumes `int` is 32 bits and `long long` 64 bits, as the static assertions of `IntegralValueSystem.hpp:28-30` demand. Widths stand for conversion ranks in `Arithmetic.CommonType`.
- The enumerators of `Prefix` are read as the `int` values they are declared with.
- GenericConversions.UnitMult: the amount is stated only when no intermediate cast changes a value (`MultIntermediatesFit`). Otherwise only the wrapped raw value's type and range are stated.
- GenericConversions.UnitDiv: the quotient is stated only when no intermediate cast changes a value (`DivIntermediatesFit`). Otherwise only the result's type and range are stated.
- GenericConversions.UnitMultSymmetric: requires both operand orders to be defined and cast-free. In the wrapping cases the two orders cast the left operand differently.
- Units.FromToRoundTrip: holds only from a prefix no finer than the base prefix. The finer case truncates, and `Units.FromToTruncates` states it.
- ExampleConversionTest: each lemma requires every literal's raw value to fit 32 bits, and the numbers to satisfy Ohm's law exactly. The test's literals are one instance.

## Findings

| source | as written | input that shows it | evidently intended | confidence | as-written member | corrected member |
|---|---|---|---|---|---|---|
| example/IntegralUnits/Conversions.hpp:43-45 | the product `raw1 * raw2` is widened to 64 bits, but the sum `raw1 + raw2` is computed in `int`, where it can overflow | two 1.5 mega-ohm resistors (raw 1500000000 each): the sum 3000000000 overflows `int`, while the parallel value 750000000 fits | the sum widened like the product, defined for any two resistors with a non-zero sum | medium, not executed | Conversions.ParallelSumOverflows | Conversions.ParallelWidened |
