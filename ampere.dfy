/** The example current unit: amperes stored as 32-bit micro-amperes, with the
    literals `_uA`, `_mA` and `_A`. A literal is cast to the 32-bit storage type
    first, so a literal beyond its range wraps around. */
module AmpereUnits {
  import opened Integers
  import opened Exponents
  import opened Prefixes
  import opened Units

  const AmpereMicroIntegral := Representation(Micro, Int32)

  /** `Ampere`, the unit type tagged `Ampere_t`. */
  const Ampere := Unit(Dimension("Ampere_t"), AmpereMicroIntegral)

  /** `n_uA`: `n` micro-amperes. */
  function uA(n: nat): (q: Quantity)
    requires InRange(UInt64, n)
    ensures q.unit == Ampere && q.WellFormed()
    ensures q.Magnitude() == Wrap(Int32, n)
    ensures n <= MaxValue(Int32) ==> q.raw == n
  {
    RescaleDefined(Int32, Micro, Ampere.BasePrefix(), Wrap(Int32, n));
    From(Ampere, Micro, Wrap(Int32, n))
  }

  /** `n_mA`: `n` milli-amperes, as long as the micro-amperes fit. */
  function mA(n: nat): (q: Quantity)
    requires InRange(UInt64, n)
    requires InRange(Int32, Wrap(Int32, n) * 1_000)
    ensures q.unit == Ampere && q.WellFormed()
    ensures q.Magnitude() == Wrap(Int32, n) * 1_000
    ensures n <= MaxValue(Int32) ==> q.raw == n * 1_000
  {
    RescaleDefined(Int32, Milli, Ampere.BasePrefix(), Wrap(Int32, n));
    From(Ampere, Milli, Wrap(Int32, n))
  }

  /** `n_A`: `n` amperes, as long as the micro-amperes fit. */
  function A(n: nat): (q: Quantity)
    requires InRange(UInt64, n)
    requires InRange(Int32, Wrap(Int32, n) * 1_000_000)
    ensures q.unit == Ampere && q.WellFormed()
    ensures q.Magnitude() == Wrap(Int32, n) * 1_000_000
    ensures n <= MaxValue(Int32) ==> q.raw == n * 1_000_000
  {
    RescaleDefined(Int32, One, Ampere.BasePrefix(), Wrap(Int32, n));
    From(Ampere, One, Wrap(Int32, n))
  }

  /** A milli-ampere literal is the micro-ampere literal a thousand times as large. */
  lemma MilliAmpereIsThousandMicro(n: nat)
    requires n * 1_000 <= MaxValue(Int32)
    ensures InRange(UInt64, n) && InRange(UInt64, n * 1_000)
    ensures InRange(Int32, Wrap(Int32, n) * 1_000)
    ensures mA(n) == uA(n * 1_000)
  {
  }

  /** An ampere literal is the milli-ampere literal a thousand times as large. */
  lemma AmpereIsThousandMilli(n: nat)
    requires n * 1_000_000 <= MaxValue(Int32)
    ensures InRange(UInt64, n) && InRange(UInt64, n * 1_000)
    ensures InRange(Int32, Wrap(Int32, n) * 1_000_000)
    ensures InRange(Int32, Wrap(Int32, n * 1_000) * 1_000)
    ensures A(n) == mA(n * 1_000)
  {
  }

  /** The cast to 32 bits makes literals `2^32` apart denote the same current. */
  lemma MicroAmpereLiteralWraps(n: nat)
    requires InRange(UInt64, n + Pow2(32))
    ensures InRange(UInt64, n)
    ensures uA(n + Pow2(32)) == uA(n)
  {
    WrapPeriodic(Int32, n, 1);
  }
}
