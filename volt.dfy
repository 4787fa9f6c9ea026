/** The example voltage unit: volts stored as 32-bit milli-volts, with the
    literals `_mV` and `_V`, each cast to the storage type first. */
module VoltUnits {
  import opened Integers
  import opened Exponents
  import opened Prefixes
  import opened Units

  const VoltMilliIntegral := Representation(Milli, Int32)

  /** `Volt`, the unit type tagged `Volt_t`. */
  const Volt := Unit(Dimension("Volt_t"), VoltMilliIntegral)

  /** `n_mV`: `n` milli-volts. */
  function mV(n: nat): (q: Quantity)
    requires InRange(UInt64, n)
    ensures q.unit == Volt && q.WellFormed()
    ensures q.Magnitude() == Wrap(Int32, n) * 1_000
    ensures n <= MaxValue(Int32) ==> q.raw == n
  {
    RescaleDefined(Int32, Milli, Volt.BasePrefix(), Wrap(Int32, n));
    From(Volt, Milli, Wrap(Int32, n))
  }

  /** `n_V`: `n` volts, as long as the milli-volts fit. */
  function V(n: nat): (q: Quantity)
    requires InRange(UInt64, n)
    requires InRange(Int32, Wrap(Int32, n) * 1_000)
    ensures q.unit == Volt && q.WellFormed()
    ensures q.Magnitude() == Wrap(Int32, n) * 1_000_000
    ensures n <= MaxValue(Int32) ==> q.raw == n * 1_000
  {
    RescaleDefined(Int32, One, Volt.BasePrefix(), Wrap(Int32, n));
    From(Volt, One, Wrap(Int32, n))
  }

  /** A volt literal is the milli-volt literal a thousand times as large. */
  lemma VoltIsThousandMilli(n: nat)
    requires n * 1_000 <= MaxValue(Int32)
    ensures InRange(UInt64, n) && InRange(UInt64, n * 1_000)
    ensures InRange(Int32, Wrap(Int32, n) * 1_000)
    ensures V(n) == mV(n * 1_000)
  {
  }
}
