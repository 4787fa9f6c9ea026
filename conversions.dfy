/** The conversions between the example units: Ohm's law `U = I * R` in both
    operand orders, `I = U / R`, and the parallel connection of two resistors,
    all through the integral value system. */
module Conversions {
  import opened Integers
  import opened Arithmetic
  import opened Prefixes
  import opened Exponents
  import opened ValueSystems
  import opened Units
  import opened GenericConversions
  import opened IntegralValueSystems
  import opened AmpereUnits
  import opened VoltUnits
  import opened OhmUnits

  /** An ampere times an ohm can always be formed and no intermediate cast changes
      a value: the 64-bit product of two 32-bit raw values fits, and the correction
      by `-6` decades only shrinks it. */
  lemma AmpereTimesOhmCompiles(lhs: Quantity, rhs: Quantity)
    requires lhs.unit == Ampere && lhs.WellFormed()
    requires rhs.unit == Ohm && rhs.WellFormed()
    ensures CanUnitMult(IntegralValueSystem, Volt, lhs, rhs)
    ensures CanUnitMult(IntegralValueSystem, Volt, rhs, lhs)
    ensures MultIntermediatesFit(IntegralValueSystem, Volt, lhs, rhs)
    ensures MultIntermediatesFit(IntegralValueSystem, Volt, rhs, lhs)
    ensures MultCorrected(Volt, lhs, rhs) == TruncDiv(lhs.raw * rhs.raw, 1_000_000)
  {
    IntegralWidening();
    IntegralValueSystemWellOrdered();
    assert MultCorrection(Volt, lhs, rhs) == -6 && MultCorrection(Volt, rhs, lhs) == -6;
    assert ExponentToMultiplier(6) == 1_000_000;
    UnitMultIntermediatesFit(IntegralValueSystem, Volt, lhs, rhs);
    UnitMultIntermediatesFit(IntegralValueSystem, Volt, rhs, lhs);
  }

  /** `Ampere * Ohm`: micro-amperes times milli-ohms are nano-volts, so the 64-bit
      raw product is divided by a million into milli-volts (truncating) and cast to
      32 bits. When the quotient fits, the volts are the exact product cut toward
      zero to a whole milli-volt. */
  function AmpereTimesOhm(lhs: Quantity, rhs: Quantity): (u: Quantity)
    requires lhs.unit == Ampere && lhs.WellFormed()
    requires rhs.unit == Ohm && rhs.WellFormed()
    ensures u.unit == Volt && u.WellFormed()
    ensures u.raw == Wrap(Int32, TruncDiv(lhs.raw * rhs.raw, 1_000_000))
    ensures InRange(Int32, TruncDiv(lhs.raw * rhs.raw, 1_000_000)) ==>
      TowardZeroWithin(lhs.Magnitude() * rhs.Magnitude(), u.Magnitude() * Step(One), Step(Milli) * Step(One))
  {
    AmpereTimesOhmCompiles(lhs, rhs);
    UnitMult(IntegralValueSystem, Volt, lhs, rhs)
  }

  /** `Ohm * Ampere`, defined as `rhs * lhs`: the same as multiplying in this
      order directly. */
  function OhmTimesAmpere(lhs: Quantity, rhs: Quantity): (u: Quantity)
    requires lhs.unit == Ohm && lhs.WellFormed()
    requires rhs.unit == Ampere && rhs.WellFormed()
    ensures CanUnitMult(IntegralValueSystem, Volt, lhs, rhs)
    ensures u == UnitMult(IntegralValueSystem, Volt, lhs, rhs)
    ensures u.raw == Wrap(Int32, TruncDiv(lhs.raw * rhs.raw, 1_000_000))
  {
    AmpereTimesOhmCompiles(rhs, lhs);
    UnitMultSymmetric(IntegralValueSystem, Volt, rhs, lhs);
    SwapFactors(lhs.raw, rhs.raw);
    AmpereTimesOhm(rhs, lhs)
  }

  /** A volt divided by a non-zero ohm can always be formed and no intermediate
      cast changes a value: a 32-bit raw value times a million, and any quotient of
      it, fit 64 bits. */
  lemma VoltDivOhmCompiles(lhs: Quantity, rhs: Quantity)
    requires lhs.unit == Volt && lhs.WellFormed()
    requires rhs.unit == Ohm && rhs.WellFormed() && rhs.raw != 0
    ensures CanUnitDiv(IntegralValueSystem, Ampere, lhs, rhs)
    ensures DivIntermediatesFit(IntegralValueSystem, Ampere, lhs, rhs)
    ensures DivQuotient(Ampere, lhs, rhs) == TruncDiv(lhs.raw * 1_000_000, rhs.raw)
  {
    IntegralWidening();
    IntegralValueSystemWellOrdered();
    var d := lhs.raw * 1_000_000;
    assert DivCorrection(Ampere, lhs, rhs) == 6;
    assert ExponentToMultiplier(6) == 1_000_000;
    assert CorrectedDividend(Ampere, lhs, rhs) == d;
    assert InRange(Int64, d);
    UnitDivIntermediatesFit(IntegralValueSystem, Ampere, lhs, rhs);
    assert RawDividend(IntegralValueSystem, Ampere, lhs, rhs) == d;
    assert InRange(Int64, TruncDiv(d, rhs.raw));
  }

  /** `Volt / Ohm`: milli-volts times a million over milli-ohms are micro-amperes,
      truncated and cast to 32 bits. When the quotient fits, the current times the
      resistance is the voltage cut toward zero by less than one micro-ampere times
      the resistance. */
  function VoltDivOhm(lhs: Quantity, rhs: Quantity): (i: Quantity)
    requires lhs.unit == Volt && lhs.WellFormed()
    requires rhs.unit == Ohm && rhs.WellFormed() && rhs.raw != 0
    ensures i.unit == Ampere && i.WellFormed()
    ensures i.raw == Wrap(Int32, TruncDiv(lhs.raw * 1_000_000, rhs.raw))
    ensures InRange(Int32, TruncDiv(lhs.raw * 1_000_000, rhs.raw)) ==>
      TowardZeroWithin(lhs.Magnitude() * Step(One), i.Magnitude() * rhs.Magnitude(), Abs(rhs.Magnitude()) * Step(Micro))
  {
    VoltDivOhmCompiles(lhs, rhs);
    UnitDiv(IntegralValueSystem, Ampere, lhs, rhs)
  }

  /** `Ohm || Ohm`, two resistors in parallel: `r1 * r2 / (r1 + r2)` on the raw
      milli-ohms, with the product in 64 bits, the sum in 32 bits (where it must not
      overflow), the quotient truncated and cast back to 32 bits. When it fits, the
      result times the sum is the product cut toward zero by less than the sum. */
  function Parallel(lhs: Quantity, rhs: Quantity): (r: Quantity)
    requires lhs.unit == Ohm && lhs.WellFormed()
    requires rhs.unit == Ohm && rhs.WellFormed()
    requires InRange(Int32, lhs.raw + rhs.raw) && lhs.raw + rhs.raw != 0
    ensures r.unit == Ohm && r.WellFormed()
    ensures r.raw == Wrap(Int32, TruncDiv(lhs.raw * rhs.raw, lhs.raw + rhs.raw))
    ensures InRange(Int32, TruncDiv(lhs.raw * rhs.raw, lhs.raw + rhs.raw)) ==>
      TowardZeroWithin(lhs.raw * rhs.raw, r.raw * (lhs.raw + rhs.raw), Abs(lhs.raw + rhs.raw))
  {
    ToBase(lhs);
    ToBase(rhs);
    var raw1, raw2 := To(lhs, Ohm.BasePrefix()), To(rhs, Ohm.BasePrefix());
    var mv := MultiplicationResultHelper(IntegralValueSystem, Ohm.ValueType(), Ohm.ValueType());
    IntegralWidening();
    ParallelOperations(raw1, raw2);
    var product := Apply(Times, mv, Wrap(mv, raw1), Int32, raw2);
    var sum := Apply(Plus, Int32, raw1, Int32, raw2);
    var quotient := Apply(Divide, mv, product, Int32, sum);
    RescaleDefined(Int32, Ohm.BasePrefix(), Ohm.BasePrefix(), Wrap(Int32, quotient));
    From(Ohm, Ohm.BasePrefix(), Wrap(Int32, quotient))
  }

  /** The three operations of the parallel connection are defined and exact: the
      product of two 32-bit values in 64 bits, their sum in 32 bits when it fits,
      and the quotient of the two in 64 bits. */
  lemma ParallelOperations(x: int, y: int)
    requires InRange(Int32, x) && InRange(Int32, y) && InRange(Int32, x + y) && x + y != 0
    ensures CanApply(Times, Int64, Wrap(Int64, x), Int32, y) && Apply(Times, Int64, Wrap(Int64, x), Int32, y) == x * y
    ensures CanApply(Plus, Int32, x, Int32, y) && Apply(Plus, Int32, x, Int32, y) == x + y
    ensures CanApply(Divide, Int64, x * y, Int32, x + y) && Apply(Divide, Int64, x * y, Int32, x + y) == TruncDiv(x * y, x + y)
  {
    WideProduct(x, y);
    FitsIsDefined(Plus, Int32, x, y);
    WideQuotient(x * y, x + y);
  }

  /** A 32-bit value cast to 64 bits times a 32-bit value is the exact product. */
  lemma WideProduct(x: int, y: int)
    requires InRange(Int32, x) && InRange(Int32, y)
    ensures InRange(Int64, x * y) && Abs(x * y) <= MaxValue(Int64)
    ensures CanApply(Times, Int64, Wrap(Int64, x), Int32, y) && Apply(Times, Int64, Wrap(Int64, x), Int32, y) == x * y
  {
    assert InRange(Int64, x) && InRange(Int64, x * y) by {
      Widen(Int32, Int64, x);
      ProductFits(Int32, Int32, Int64, x, y);
    }
    ConvertOperands(Int64, x, Int32, y);
    AbsMul(x, y);
    MulBound(Abs(x), 0x8000_0000, Abs(y), 0x8000_0000);
  }

  /** A 64-bit value divided by a non-zero 32-bit value is the truncated quotient. */
  lemma WideQuotient(p: int, s: int)
    requires Abs(p) <= MaxValue(Int64) && InRange(Int32, s) && s != 0
    ensures CanApply(Divide, Int64, p, Int32, s) && Apply(Divide, Int64, p, Int32, s) == TruncDiv(p, s)
  {
    ConvertOperands(Int64, p, Int32, s);
    assert InRange(Int64, TruncDiv(p, s));
  }

  /** The parallel connection does not depend on the order of the resistors. */
  lemma ParallelSymmetric(lhs: Quantity, rhs: Quantity)
    requires lhs.unit == Ohm && lhs.WellFormed()
    requires rhs.unit == Ohm && rhs.WellFormed()
    requires InRange(Int32, lhs.raw + rhs.raw) && lhs.raw + rhs.raw != 0
    ensures Parallel(lhs, rhs) == Parallel(rhs, lhs)
  {
    SwapFactors(lhs.raw, rhs.raw);
  }

  /** Two positive resistors in parallel give a resistance that never wraps and
      is no larger than either of them. */
  lemma ParallelBelowBoth(lhs: Quantity, rhs: Quantity)
    requires lhs.unit == Ohm && lhs.WellFormed() && lhs.raw > 0
    requires rhs.unit == Ohm && rhs.WellFormed() && rhs.raw > 0
    requires InRange(Int32, lhs.raw + rhs.raw)
    ensures InRange(Int32, TruncDiv(lhs.raw * rhs.raw, lhs.raw + rhs.raw))
    ensures 0 <= Parallel(lhs, rhs).raw <= lhs.raw
    ensures Parallel(lhs, rhs).raw <= rhs.raw
  {
    var a, b := lhs.raw, rhs.raw;
    var q := TruncDiv(a * b, a + b);
    assert 0 <= q <= a && q <= b by {
      QuotientBelowFactor(a, b, q);
      assert q == TruncDiv(b * a, b + a) by {
        SwapFactors(a, b);
      }
      QuotientBelowFactor(b, a, q);
    }
    assert InRange(Int32, q);
    assert Wrap(Int32, q) == q;
  }

  /** `a * b / (a + b)` is at most `a` for positive `a` and `b`. */
  lemma QuotientBelowFactor(a: int, b: int, q: int)
    requires a > 0 && b > 0
    requires q == TruncDiv(a * b, a + b)
    ensures 0 <= q <= a
  {
    MulNonNegative(a, b);
    assert q * (a + b) <= a * b;
    MulMonotone(b, a + b, a);
    SwapFactors(b, a);
    if q > a {
      MulMonotone(a + 1, q, a + b);
      Distribute(a, 1, a + b);
      SwapFactors(a, a + b);
    }
  }

  /** Two equal resistors in parallel give half the resistance, truncated. */
  lemma ParallelEqualHalves(x: Quantity)
    requires x.unit == Ohm && x.WellFormed()
    requires InRange(Int32, x.raw + x.raw) && x.raw != 0
    ensures Parallel(x, x).raw == TruncDiv(x.raw, 2)
  {
    var h := TruncDiv(x.raw, 2);
    assert TruncDiv(x.raw * x.raw, x.raw + x.raw) == h by {
      SquareOverDouble(x.raw);
    }
    assert InRange(Int32, h);
  }

  /** Two resistors of 1.5 mega-ohms each: their raw milli-ohms fit 32 bits and
      their parallel value, 0.75 mega-ohms, does too, but the sum `raw1 + raw2`,
      computed in `int`, overflows, so `operator||` has undefined behaviour. */
  lemma ParallelSumOverflows()
    ensures InRange(Int32, 1_500_000_000)
    ensures !CanApply(Plus, Int32, 1_500_000_000, Int32, 1_500_000_000)
    ensures TruncDiv(1_500_000_000 * 1_500_000_000, 1_500_000_000 + 1_500_000_000) == 750_000_000
  {
    var x := 1_500_000_000;
    SquareOverDouble(x);
  }

  /** `Ohm || Ohm` with the sum widened as the product is: `r1 * r2 / (r1 + r2)`
      with the product and the sum both in 64 bits, the quotient truncated and cast
      back to 32 bits. Defined for every pair whose sum is not zero. */
  function ParallelWidened(lhs: Quantity, rhs: Quantity): (r: Quantity)
    requires lhs.unit == Ohm && lhs.WellFormed()
    requires rhs.unit == Ohm && rhs.WellFormed()
    requires lhs.raw + rhs.raw != 0
    ensures r.unit == Ohm && r.WellFormed()
    ensures r.raw == Wrap(Int32, TruncDiv(lhs.raw * rhs.raw, lhs.raw + rhs.raw))
  {
    ToBase(lhs);
    ToBase(rhs);
    var raw1, raw2 := To(lhs, Ohm.BasePrefix()), To(rhs, Ohm.BasePrefix());
    var mv := MultiplicationResultHelper(IntegralValueSystem, Ohm.ValueType(), Ohm.ValueType());
    IntegralWidening();
    WidenedParallelOperations(raw1, raw2);
    var product := Apply(Times, mv, Wrap(mv, raw1), Int32, raw2);
    var sum := Apply(Plus, mv, Wrap(mv, raw1), Int32, raw2);
    var quotient := Apply(Divide, mv, product, mv, sum);
    RescaleDefined(Int32, Ohm.BasePrefix(), Ohm.BasePrefix(), Wrap(Int32, quotient));
    From(Ohm, Ohm.BasePrefix(), Wrap(Int32, quotient))
  }

  /** With the left operand cast to 64 bits, the product, the sum and their
      quotient are all defined and exact for any two 32-bit values. */
  lemma WidenedParallelOperations(x: int, y: int)
    requires InRange(Int32, x) && InRange(Int32, y) && x + y != 0
    ensures CanApply(Times, Int64, Wrap(Int64, x), Int32, y) && Apply(Times, Int64, Wrap(Int64, x), Int32, y) == x * y
    ensures CanApply(Plus, Int64, Wrap(Int64, x), Int32, y) && Apply(Plus, Int64, Wrap(Int64, x), Int32, y) == x + y
    ensures CanApply(Divide, Int64, x * y, Int64, x + y) && Apply(Divide, Int64, x * y, Int64, x + y) == TruncDiv(x * y, x + y)
  {
    WideProduct(x, y);
    Widen(Int32, Int64, x);
    ConvertOperands(Int64, x, Int32, y);
    assert InRange(Int64, x + y);
    ConvertOperands(Int64, x * y, Int64, x + y);
    assert InRange(Int64, TruncDiv(x * y, x + y));
  }

  /** Wherever the 32-bit sum does not overflow, the widened connection is the
      library's one. */
  lemma ParallelWidenedAgrees(lhs: Quantity, rhs: Quantity)
    requires lhs.unit == Ohm && lhs.WellFormed()
    requires rhs.unit == Ohm && rhs.WellFormed()
    requires InRange(Int32, lhs.raw + rhs.raw) && lhs.raw + rhs.raw != 0
    ensures ParallelWidened(lhs, rhs) == Parallel(lhs, rhs)
  {
  }

  /** Any two positive resistors in parallel, however large, give a resistance
      that never wraps and is no larger than either of them. */
  lemma ParallelWidenedBelowBoth(lhs: Quantity, rhs: Quantity)
    requires lhs.unit == Ohm && lhs.WellFormed() && lhs.raw > 0
    requires rhs.unit == Ohm && rhs.WellFormed() && rhs.raw > 0
    ensures InRange(Int32, TruncDiv(lhs.raw * rhs.raw, lhs.raw + rhs.raw))
    ensures 0 <= ParallelWidened(lhs, rhs).raw <= lhs.raw
    ensures ParallelWidened(lhs, rhs).raw <= rhs.raw
  {
    var a, b := lhs.raw, rhs.raw;
    var q := TruncDiv(a * b, a + b);
    assert 0 <= q <= a && q <= b by {
      QuotientBelowFactor(a, b, q);
      assert q == TruncDiv(b * a, b + a) by {
        SwapFactors(a, b);
      }
      QuotientBelowFactor(b, a, q);
    }
    assert InRange(Int32, q);
    assert Wrap(Int32, q) == q;
  }

  /** `x * x / (2 * x)` is `x / 2`, truncating both. */
  lemma SquareOverDouble(x: int)
    requires x != 0
    ensures TruncDiv(x * x, x + x) == TruncDiv(x, 2)
  {
    if x > 0 {
      PositiveSquareOverDouble(x);
    } else {
      PositiveSquareOverDouble(-x);
      assert (-x) * (-x) == x * x;
      assert TruncDiv(x * x, -(x + x)) == -TruncDiv(x * x, x + x) by {
        TruncDivNegateDivisor(x * x, x + x);
      }
      assert TruncDiv(-x, 2) == -TruncDiv(x, 2) by {
        TruncDivNegateDividend(x, 2);
      }
    }
  }

  lemma PositiveSquareOverDouble(x: int)
    requires x > 0
    ensures TruncDiv(x * x, x + x) == TruncDiv(x, 2)
  {
    var q := TruncDiv(x, 2);
    ScaleTowardZero(x, q * 2, 2, x);
    ReassociateProduct(q, 2, x);
    assert 2 * x == x + x;
    TruncDivUnique(x * x, x + x, q);
  }
}
