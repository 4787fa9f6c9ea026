/** The value system of the integral example units: the signed 8-, 16-, 32- and
    64-bit types, with plain `int` standing for the 32-bit entry. */
module IntegralValueSystems {
  import opened Integers
  import opened ValueSystems

  /** `int`, which the registry lists in place of the 32-bit fixed-width type and
      which the compile-time checks require to have that type's size and range. */
  const CInt := IntType(32, true)

  const IntegralValueSystem: ValueSystem := [Int8, Int16, CInt, Int64]

  /** The registry meets its documented requirements and lists four distinct types. */
  lemma IntegralValueSystemWellOrdered()
    ensures WellOrdered(IntegralValueSystem)
    ensures Count(IntegralValueSystem) == 4
    ensures forall i :: 0 <= i < |IntegralValueSystem| ==> PositionOf(IntegralValueSystem, IntegralValueSystem[i]) == i
  {
    forall i | 0 <= i < |IntegralValueSystem|
      ensures PositionOf(IntegralValueSystem, IntegralValueSystem[i]) == i
    {
      WellOrderedPositions(IntegralValueSystem, i);
    }
  }

  /** `int` has the size, minimum and maximum of the 32-bit type. */
  lemma CIntIsInt32()
    ensures CInt.bits == Int32.bits
    ensures MinValue(CInt) == MinValue(Int32) == -0x8000_0000
    ensures MaxValue(CInt) == MaxValue(Int32) == 0x7FFF_FFFF
  {
  }

  /** A product of two 32-bit values is computed in 64 bits, and so is a widened
      32-bit dividend; the 64-bit entry has no wider type after it. */
  lemma IntegralWidening()
    ensures Int32 in IntegralValueSystem
    ensures MultiplicationResultHelper(IntegralValueSystem, Int32, Int32) == Int64
    ensures LargerType(IntegralValueSystem, Int32) == Int64
    ensures PositionOf(IntegralValueSystem, Int64) + 1 == |IntegralValueSystem|
  {
    IntegralValueSystemWellOrdered();
  }
}
