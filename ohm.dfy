/** The example resistance unit: ohms stored as 32-bit milli-ohms, with the
    literals `_mOhm`, `_Ohm` and `_kOhm`, each cast to the storage type first. */
module OhmUnits {
  import opened Integers
  import opened Exponents
  import opened Prefixes
  import opened Units

  const OhmMilliIntegral := Representation(Milli, Int32)

  /** `Ohm`, the unit type tagged `Ohm_t`. */
  const Ohm := Unit(Dimension("Ohm_t"), OhmMilliIntegral)

  /** `n_mOhm`: `n` milli-ohms. */
  function mOhm(n: nat): (q: Quantity)
    requires InRange(UInt64, n)
    ensures q.unit == Ohm && q.WellFormed()
    ensures q.Magnitude() == Wrap(Int32, n) * 1_000
    ensures n <= MaxValue(Int32) ==> q.raw == n
  {
    RescaleDefined(Int32, Milli, Ohm.BasePrefix(), Wrap(Int32, n));
    From(Ohm, Milli, Wrap(Int32, n))
  }

  /** `n_Ohm`: `n` ohms, as long as the milli-ohms fit. */
  function Ohms(n: nat): (q: Quantity)
    requires InRange(UInt64, n)
    requires InRange(Int32, Wrap(Int32, n) * 1_000)
    ensures q.unit == Ohm && q.WellFormed()
    ensures q.Magnitude() == Wrap(Int32, n) * 1_000_000
    ensures n <= MaxValue(Int32) ==> q.raw == n * 1_000
  {
    RescaleDefined(Int32, One, Ohm.BasePrefix(), Wrap(Int32, n));
    From(Ohm, One, Wrap(Int32, n))
  }

  /** `n_kOhm`: `n` kilo-ohms, as long as the milli-ohms fit. */
  function kOhm(n: nat): (q: Quantity)
    requires InRange(UInt64, n)
    requires InRange(Int32, Wrap(Int32, n) * 1_000_000)
    ensures q.unit == Ohm && q.WellFormed()
    ensures q.Magnitude() == Wrap(Int32, n) * 1_000_000_000
    ensures n <= MaxValue(Int32) ==> q.raw == n * 1_000_000
  {
    RescaleDefined(Int32, Kilo, Ohm.BasePrefix(), Wrap(Int32, n));
    From(Ohm, Kilo, Wrap(Int32, n))
  }

  /** An ohm literal is the milli-ohm literal a thousand times as large. */
  lemma OhmIsThousandMilli(n: nat)
    requires n * 1_000 <= MaxValue(Int32)
    ensures InRange(UInt64, n) && InRange(UInt64, n * 1_000)
    ensures InRange(Int32, Wrap(Int32, n) * 1_000)
    ensures Ohms(n) == mOhm(n * 1_000)
  {
  }

  /** A kilo-ohm literal is the ohm literal a thousand times as large. */
  lemma KiloOhmIsThousandOhms(n: nat)
    requires n * 1_000_000 <= MaxValue(Int32)
    ensures InRange(UInt64, n) && InRange(UInt64, n * 1_000)
    ensures InRange(Int32, Wrap(Int32, n) * 1_000_000)
    ensures InRange(Int32, Wrap(Int32, n * 1_000) * 1_000)
    ensures kOhm(n) == Ohms(n * 1_000)
  {
  }
}
