/** Multiplication and division of two quantities of different dimensions into a
    third (for instance Ampere times Ohm gives Volt). The raw values are widened
    through the value system, corrected by the decades between the prefixes,
    and narrowed back into the result's storage type. */
module GenericConversions {
  import opened Integers
  import opened Arithmetic
  import opened Prefixes
  import opened Exponents
  import opened ValueSystems
  import opened Units

  /** The type `MultiplicationResultHelper` selects for `UnitMult`'s product. */
  function MultValueType(sys: ValueSystem, lhs: Quantity, rhs: Quantity): IntType
    requires lhs.unit.ValueType() in sys && rhs.unit.ValueType() in sys
    requires LargerPositionOf(sys, lhs.unit.ValueType(), rhs.unit.ValueType()) + 1 < |sys|
  {
    MultiplicationResultHelper(sys, lhs.unit.ValueType(), rhs.unit.ValueType())
  }

  /** The type the product is computed in: the left operand is cast to
      `MultValueType`, the right one keeps its storage type. */
  function ProductType(sys: ValueSystem, lhs: Quantity, rhs: Quantity): IntType
    requires lhs.unit.ValueType() in sys && rhs.unit.ValueType() in sys
    requires LargerPositionOf(sys, lhs.unit.ValueType(), rhs.unit.ValueType()) + 1 < |sys|
  {
    CommonType(MultValueType(sys, lhs, rhs), rhs.unit.ValueType())
  }

  /** The decades `UnitMult` corrects the raw product by. */
  function MultCorrection(result: Unit, lhs: Quantity, rhs: Quantity): int
  {
    DimensionCorrectionFromMult(result.BasePrefix(), lhs.unit.BasePrefix(), rhs.unit.BasePrefix())
  }

  /** The mathematical raw product rescaled to the result's base prefix. */
  function MultCorrected(result: Unit, lhs: Quantity, rhs: Quantity): int
  {
    MultiplyWithExponent(MultCorrection(result, lhs, rhs), lhs.raw * rhs.raw)
  }

  /** `UnitMult`'s type selection compiles for these operands. */
  predicate MultTypesRegistered(sys: ValueSystem, lhs: Quantity, rhs: Quantity)
  {
    && lhs.unit.ValueType() in sys && rhs.unit.ValueType() in sys
    && LargerPositionOf(sys, lhs.unit.ValueType(), rhs.unit.ValueType()) + 1 < |sys|
  }

  /** The product `static_cast<MultValueType>(lhs) * rhs` has defined behaviour. */
  predicate CanMultiplyRaw(sys: ValueSystem, lhs: Quantity, rhs: Quantity)
    requires MultTypesRegistered(sys, lhs, rhs)
  {
    var mv := MultValueType(sys, lhs, rhs);
    CanApply(Times, mv, Wrap(mv, lhs.raw), rhs.unit.ValueType(), rhs.raw)
  }

  /** The product as C++ computes it. */
  function RawProduct(sys: ValueSystem, lhs: Quantity, rhs: Quantity): (p: int)
    requires MultTypesRegistered(sys, lhs, rhs) && CanMultiplyRaw(sys, lhs, rhs)
    ensures InRange(ProductType(sys, lhs, rhs), p)
  {
    var mv := MultValueType(sys, lhs, rhs);
    Apply(Times, mv, Wrap(mv, lhs.raw), rhs.unit.ValueType(), rhs.raw)
  }

  /** What `UnitMult` needs to compile and to stay clear of signed overflow. It
      compiles only for a correction of at most nine decades. */
  predicate CanUnitMult(sys: ValueSystem, result: Unit, lhs: Quantity, rhs: Quantity): (ok: bool)
    ensures ok ==> -9 <= MultCorrection(result, lhs, rhs) <= 9
  {
    && lhs.WellFormed() && rhs.WellFormed()
    && MultTypesRegistered(sys, lhs, rhs)
    && CanMultiplyRaw(sys, lhs, rhs)
    && CanMultiplyWithExponentAs(ProductType(sys, lhs, rhs), MultCorrection(result, lhs, rhs), RawProduct(sys, lhs, rhs))
  }

  /** No intermediate cast of `UnitMult` changes a value: the left operand fits
      `MultValueType`, and the product and the corrected product fit the type the
      product is computed in (with non-negative operands if that type is unsigned). */
  predicate MultIntermediatesFit(sys: ValueSystem, result: Unit, lhs: Quantity, rhs: Quantity)
    requires MultTypesRegistered(sys, lhs, rhs)
  {
    var p := ProductType(sys, lhs, rhs);
    && InRange(MultValueType(sys, lhs, rhs), lhs.raw)
    && (p.signed || (lhs.raw >= 0 && rhs.raw >= 0))
    && InRange(p, lhs.raw * rhs.raw)
    && InRange(p, MultCorrected(result, lhs, rhs))
  }

  /** `UnitMult<ValueSys, Result>(lhs, rhs)`. When no intermediate cast changes a
      value, the result holds the corrected product cast to its storage type. When
      that fits too, then as amounts, with all three counted in millionths, the
      result times a million is the product of the operands cut toward zero to a
      whole result step, and it is exact when the result's prefix is no coarser
      than the product's. */
  function UnitMult(sys: ValueSystem, result: Unit, lhs: Quantity, rhs: Quantity): (q: Quantity)
    requires CanUnitMult(sys, result, lhs, rhs)
    ensures q.unit == result && q.WellFormed()
    ensures MultIntermediatesFit(sys, result, lhs, rhs) ==>
      q.raw == Wrap(result.ValueType(), MultCorrected(result, lhs, rhs))
    ensures MultIntermediatesFit(sys, result, lhs, rhs) && InRange(result.ValueType(), MultCorrected(result, lhs, rhs)) ==>
      TowardZeroWithin(lhs.Magnitude() * rhs.Magnitude(), q.Magnitude() * Step(One), Step(result.BasePrefix()) * Step(One))
    ensures (MultIntermediatesFit(sys, result, lhs, rhs) && InRange(result.ValueType(), MultCorrected(result, lhs, rhs)) &&
             MultCorrection(result, lhs, rhs) >= 0) ==>
      q.Magnitude() * Step(One) == lhs.Magnitude() * rhs.Magnitude()
  {
    var mv, p, c := MultValueType(sys, lhs, rhs), ProductType(sys, lhs, rhs), MultCorrection(result, lhs, rhs);
    ToBase(lhs);
    ToBase(rhs);
    var product := Apply(Times, mv, Wrap(mv, To(lhs, lhs.unit.BasePrefix())), rhs.unit.ValueType(), To(rhs, rhs.unit.BasePrefix()));
    var corrected := MultiplyWithExponentAs(p, c, product);
    var narrowed := Wrap(result.ValueType(), corrected);
    RescaleDefined(result.ValueType(), result.BasePrefix(), result.BasePrefix(), narrowed);
    var q := From(result, result.BasePrefix(), narrowed);
    MultMagnitude(lhs.raw, lhs.unit.BasePrefix(), rhs.raw, rhs.unit.BasePrefix(), MultCorrected(result, lhs, rhs), result.BasePrefix());
    q
  }

  /** The raw product corrected by the multiplication decades is, as an amount, the
      product of the two amounts cut toward zero to a result step. */
  lemma MultMagnitude(x: int, px: Prefix, y: int, py: Prefix, r: int, pr: Prefix)
    requires r == MultiplyWithExponent(DimensionCorrectionFromMult(pr, px, py), x * y)
    ensures TowardZeroWithin((x * Step(px)) * (y * Step(py)), (r * Step(pr)) * Step(One), Step(pr) * Step(One))
    ensures DimensionCorrectionFromMult(pr, px, py) >= 0 ==>
      (r * Step(pr)) * Step(One) == (x * Step(px)) * (y * Step(py))
  {
    var c := DimensionCorrectionFromMult(pr, px, py);
    var sx, sy, sr, s1 := Step(px), Step(py), Step(pr), Step(One);
    MultSteps(px, py, pr);
    if c >= 0 {
      MultipliedUp(x, y, r, sx, sy, sr, s1, ExponentToMultiplier(c));
      MulMonotone(1, sr, s1);
      ExactWithin((x * sx) * (y * sy), (r * sr) * s1, sr * s1);
    } else {
      MultipliedDown(x, y, r, sx, sy, sr, s1, ExponentToMultiplier(-c));
    }
  }

  /** The steps of a multiplication: the correction `10^c` bridges the product of the
      operands' steps and the result's step in millionths of millionths. */
  lemma MultSteps(px: Prefix, py: Prefix, pr: Prefix)
    ensures Step(px) * Step(py) > 0
    ensures var c := DimensionCorrectionFromMult(pr, px, py);
      && (c >= 0 ==> ExponentToMultiplier(c) * (Step(pr) * Step(One)) == Step(px) * Step(py))
      && (c < 0 ==> ExponentToMultiplier(-c) * (Step(px) * Step(py)) == Step(pr) * Step(One))
  {
    StepPowers(px, py, pr);
    PowersBridge(Exponent(px) + 6, Exponent(py) + 6, Exponent(pr) + 6, 6, DimensionCorrectionFromMult(pr, px, py),
      Step(px), Step(py), Step(pr), Step(One));
  }

  /** The steps of three prefixes and of the unscaled unit as powers of ten. */
  lemma StepPowers(px: Prefix, py: Prefix, pr: Prefix)
    ensures Step(px) == ExponentToMultiplier(Exponent(px) + 6) && Step(py) == ExponentToMultiplier(Exponent(py) + 6)
    ensures Step(pr) == ExponentToMultiplier(Exponent(pr) + 6) && Step(One) == ExponentToMultiplier(6)
  {
  }

  /** `10^a * 10^b` and `10^t * 10^u` are `10^c` apart when `c == a + b - t - u`. */
  lemma PowersBridge(a: nat, b: nat, t: nat, u: nat, c: int, sa: int, sb: int, st: int, su: int)
    requires c == a + b - t - u
    requires sa == ExponentToMultiplier(a) && sb == ExponentToMultiplier(b)
    requires st == ExponentToMultiplier(t) && su == ExponentToMultiplier(u)
    ensures sa * sb > 0
    ensures c >= 0 ==> ExponentToMultiplier(c) * (st * su) == sa * sb
    ensures c < 0 ==> ExponentToMultiplier(-c) * (sa * sb) == st * su
  {
    ExponentToMultiplierSum(a, b, a + b);
    ExponentToMultiplierSum(t, u, t + u);
    if c >= 0 {
      ExponentToMultiplierSum(c, t + u, a + b);
    } else {
      ExponentToMultiplierSum(-c, a + b, t + u);
    }
  }

  /** With the correction `10^c` an upward rescale, the result's amount is the product's. */
  lemma MultipliedUp(x: int, y: int, r: int, ea: int, eb: int, et: int, eu: int, ec: int)
    requires ec * (et * eu) == ea * eb
    requires r == (x * y) * ec
    ensures (r * et) * eu == (x * ea) * (y * eb)
  {
    Rearrange(x, ea, y, eb);
    ReassociateProduct(r, et, eu);
    SwapFactors(eu, et);
    ReassociateProduct(x * y, ec, et * eu);
    SwapFactors(et * eu, ec);
  }

  /** With the correction a division by `en`, the cut of the raw product scales to a cut of the amounts. */
  lemma MultipliedDown(x: int, y: int, r: int, ea: int, eb: int, et: int, eu: int, en: int)
    requires ea * eb > 0 && en * (ea * eb) == et * eu
    requires TowardZeroWithin(x * y, r * en, en)
    ensures TowardZeroWithin((x * ea) * (y * eb), (r * et) * eu, et * eu)
  {
    var k := ea * eb;
    ScaleTowardZero(x * y, r * en, en, k);
    Rearrange(x, ea, y, eb);
    ReassociateProduct(r, en, k);
    SwapFactors(k, en);
    ReassociateProduct(r, et, eu);
    SwapFactors(eu, et);
  }

  lemma ExactWithin(v: int, w: int, step: int)
    requires v == w && step >= 1
    ensures TowardZeroWithin(v, w, step)
  {
  }

  /** Swapping the operands, together with their prefixes, gives the same result
      whenever no intermediate cast changes a value: the product and the correction
      are both symmetric. */
  lemma UnitMultSymmetric(sys: ValueSystem, result: Unit, lhs: Quantity, rhs: Quantity)
    requires CanUnitMult(sys, result, lhs, rhs) && CanUnitMult(sys, result, rhs, lhs)
    requires MultIntermediatesFit(sys, result, lhs, rhs) && MultIntermediatesFit(sys, result, rhs, lhs)
    ensures UnitMult(sys, result, rhs, lhs) == UnitMult(sys, result, lhs, rhs)
  {
    DimensionCorrectionFromMultSymmetric(result.BasePrefix(), lhs.unit.BasePrefix(), rhs.unit.BasePrefix());
    SwapFactors(lhs.raw, rhs.raw);
    assert MultCorrected(result, rhs, lhs) == MultCorrected(result, lhs, rhs);
  }

  /** Micro times micro into a kilo result needs ten to the -15, which has no enumerator. */
  lemma MicroTimesMicroIntoKiloRejected(sys: ValueSystem, result: Unit, lhs: Quantity, rhs: Quantity)
    requires result.BasePrefix() == Kilo && lhs.unit.BasePrefix() == Micro && rhs.unit.BasePrefix() == Micro
    ensures MultCorrection(result, lhs, rhs) == -15
    ensures !CanUnitMult(sys, result, lhs, rhs)
  {
  }

  /** In a well-ordered value system of signed types, with a correction that only
      scales down and by at most nine decades, no intermediate cast of `UnitMult`
      changes a value, and the multiplication is well defined. */
  lemma UnitMultIntermediatesFit(sys: ValueSystem, result: Unit, lhs: Quantity, rhs: Quantity)
    requires WellOrdered(sys) && lhs.unit.ValueType().signed
    requires lhs.WellFormed() && rhs.WellFormed() && MultTypesRegistered(sys, lhs, rhs)
    requires -9 <= MultCorrection(result, lhs, rhs) <= 0
    ensures MultIntermediatesFit(sys, result, lhs, rhs)
    ensures CanUnitMult(sys, result, lhs, rhs)
  {
    var lt, rt := lhs.unit.ValueType(), rhs.unit.ValueType();
    var mv, p, c := MultValueType(sys, lhs, rhs), ProductType(sys, lhs, rhs), MultCorrection(result, lhs, rhs);
    var x, y := lhs.raw, rhs.raw;
    var prod := x * y;
    assert InRange(mv, x) && InRange(p, prod) by {
      MultiplicationResultWider(sys, lt, rt);
      MultiplicationResultFits(sys, lt, rt, x, y);
      Widen(lt, mv, x);
      Widen(mv, p, prod);
    }
    assert CanMultiplyRaw(sys, lhs, rhs) && RawProduct(sys, lhs, rhs) == prod by {
      ConvertOperands(mv, x, rt, y);
    }
    assert InRange(p, MultiplyWithExponent(c, prod)) by {
      if c < 0 {
        MultiplyWithExponentDownFits(p, c, prod);
      } else {
        MultiplyWithExponentZero(prod);
      }
    }
    CanMultiplyWithExponentAsIfFits(p, c, prod);
  }

  /** The widened type of the dividend in `UnitDiv`. */
  function CorrectionType(sys: ValueSystem, lhs: Quantity): IntType
    requires lhs.unit.ValueType() in sys
    requires PositionOf(sys, lhs.unit.ValueType()) + 1 < |sys|
  {
    LargerType(sys, lhs.unit.ValueType())
  }

  /** The type the quotient is computed in. */
  function QuotientType(sys: ValueSystem, lhs: Quantity, rhs: Quantity): IntType
    requires lhs.unit.ValueType() in sys
    requires PositionOf(sys, lhs.unit.ValueType()) + 1 < |sys|
  {
    CommonType(CorrectionType(sys, lhs), rhs.unit.ValueType())
  }

  /** The decades `UnitDiv` corrects the widened dividend by. */
  function DivCorrection(result: Unit, lhs: Quantity, rhs: Quantity): int
  {
    DimensionCorrectionFromDiv(result.BasePrefix(), lhs.unit.BasePrefix(), rhs.unit.BasePrefix())
  }

  /** The mathematical corrected dividend. */
  function CorrectedDividend(result: Unit, lhs: Quantity, rhs: Quantity): int
  {
    MultiplyWithExponent(DivCorrection(result, lhs, rhs), lhs.raw)
  }

  /** The mathematical quotient of `UnitDiv` before the cast to the result's storage type. */
  function DivQuotient(result: Unit, lhs: Quantity, rhs: Quantity): int
    requires rhs.raw != 0
  {
    TruncDiv(CorrectedDividend(result, lhs, rhs), rhs.raw)
  }

  /** `UnitDiv`'s type selection compiles for the dividend. */
  predicate DivTypeRegistered(sys: ValueSystem, lhs: Quantity)
  {
    lhs.unit.ValueType() in sys && PositionOf(sys, lhs.unit.ValueType()) + 1 < |sys|
  }

  /** The correction of the dividend, cast to `TCorrection`, has defined behaviour. */
  predicate CanCorrectDividend(sys: ValueSystem, result: Unit, lhs: Quantity, rhs: Quantity)
    requires DivTypeRegistered(sys, lhs)
  {
    var tc := CorrectionType(sys, lhs);
    CanMultiplyWithExponentAs(tc, DivCorrection(result, lhs, rhs), Wrap(tc, lhs.raw))
  }

  /** The corrected dividend as C++ computes it. */
  function RawDividend(sys: ValueSystem, result: Unit, lhs: Quantity, rhs: Quantity): (d: int)
    requires DivTypeRegistered(sys, lhs) && CanCorrectDividend(sys, result, lhs, rhs)
    ensures InRange(CorrectionType(sys, lhs), d)
  {
    var tc := CorrectionType(sys, lhs);
    MultiplyWithExponentAs(tc, DivCorrection(result, lhs, rhs), Wrap(tc, lhs.raw))
  }

  /** What `UnitDiv` needs to compile and to stay clear of signed overflow and of
      division by zero. It compiles only for a correction of at most nine decades. */
  predicate CanUnitDiv(sys: ValueSystem, result: Unit, lhs: Quantity, rhs: Quantity): (ok: bool)
    ensures ok ==> -9 <= DivCorrection(result, lhs, rhs) <= 9
  {
    && lhs.WellFormed() && rhs.WellFormed()
    && DivTypeRegistered(sys, lhs)
    && CanCorrectDividend(sys, result, lhs, rhs)
    && CanApply(Divide, CorrectionType(sys, lhs), RawDividend(sys, result, lhs, rhs), rhs.unit.ValueType(), rhs.raw)
  }

  /** No intermediate cast of `UnitDiv` changes a value: the dividend and the
      corrected dividend fit `TCorrection`, and if the quotient is computed unsigned,
      both operands are positive and the quotient fits. */
  predicate DivIntermediatesFit(sys: ValueSystem, result: Unit, lhs: Quantity, rhs: Quantity)
    requires DivTypeRegistered(sys, lhs)
  {
    && InRange(CorrectionType(sys, lhs), lhs.raw)
    && InRange(CorrectionType(sys, lhs), CorrectedDividend(result, lhs, rhs))
    && (|| QuotientType(sys, lhs, rhs).signed
        || (&& CorrectedDividend(result, lhs, rhs) >= 0 && rhs.raw > 0
            && InRange(QuotientType(sys, lhs, rhs), DivQuotient(result, lhs, rhs))))
  }

  /** `UnitDiv<ValueSys, Result>(lhs, rhs)`: the correction is applied to the
      widened dividend before the truncating division, and the quotient is cast to
      the result's storage type. The divisor is never zero. When no intermediate
      cast changes a value, the result holds the quotient cast to its storage type;
      when that fits too, then as amounts counted in millionths, the result times
      the divisor is the dividend times a million cut toward zero, by less than the
      divisor times one result step. */
  function UnitDiv(sys: ValueSystem, result: Unit, lhs: Quantity, rhs: Quantity): (q: Quantity)
    requires CanUnitDiv(sys, result, lhs, rhs)
    ensures q.unit == result && q.WellFormed()
    ensures rhs.raw != 0 && rhs.Magnitude() != 0
    ensures DivIntermediatesFit(sys, result, lhs, rhs) ==>
      q.raw == Wrap(result.ValueType(), DivQuotient(result, lhs, rhs))
    ensures DivIntermediatesFit(sys, result, lhs, rhs) && InRange(result.ValueType(), DivQuotient(result, lhs, rhs)) ==>
      TowardZeroWithin(lhs.Magnitude() * Step(One), q.Magnitude() * rhs.Magnitude(),
                       Abs(rhs.Magnitude()) * Step(result.BasePrefix()))
  {
    var tc, qt := CorrectionType(sys, lhs), QuotientType(sys, lhs, rhs);
    ToBase(lhs);
    ToBase(rhs);
    var lhsRaw, rhsRaw := To(lhs, lhs.unit.BasePrefix()), To(rhs, rhs.unit.BasePrefix());
    var corrected := MultiplyWithExponentAs(tc, DivCorrection(result, lhs, rhs), Wrap(tc, lhsRaw));
    DivisorNonZero(qt, rhs.raw);
    var division := Apply(Divide, tc, corrected, rhs.unit.ValueType(), rhsRaw);
    var narrowed := Wrap(result.ValueType(), division);
    RescaleDefined(result.ValueType(), result.BasePrefix(), result.BasePrefix(), narrowed);
    var q := From(result, result.BasePrefix(), narrowed);
    DivMagnitude(lhs.raw, lhs.unit.BasePrefix(), rhs.raw, rhs.unit.BasePrefix(), DivQuotient(result, lhs, rhs), result.BasePrefix());
    q
  }

  /** A divisor that does not convert to zero is not zero. */
  lemma DivisorNonZero(t: IntType, y: int)
    requires Wrap(t, y) != 0
    ensures y != 0
  {
  }

  /** With a signed dividend in a well-ordered value system and a signed divisor,
      and a correction of at most nine decades, a corrected dividend that fits the
      widened type is the only condition for `UnitDiv` to change no value before
      the final cast. */
  lemma UnitDivIntermediatesFit(sys: ValueSystem, result: Unit, lhs: Quantity, rhs: Quantity)
    requires WellOrdered(sys) && lhs.unit.ValueType().signed && rhs.unit.ValueType().signed
    requires lhs.WellFormed() && DivTypeRegistered(sys, lhs)
    requires -9 <= DivCorrection(result, lhs, rhs) <= 9
    requires InRange(CorrectionType(sys, lhs), CorrectedDividend(result, lhs, rhs))
    ensures DivIntermediatesFit(sys, result, lhs, rhs)
    ensures CanCorrectDividend(sys, result, lhs, rhs)
  {
    var lt, tc := lhs.unit.ValueType(), CorrectionType(sys, lhs);
    assert InRange(tc, lhs.raw) && tc.signed by {
      LargerTypeWider(sys, lt);
      Widen(lt, tc, lhs.raw);
    }
    CanMultiplyWithExponentAsIfFits(tc, DivCorrection(result, lhs, rhs), lhs.raw);
  }

  /** The corrected, truncated quotient is, as an amount, the exact quotient cut toward zero. */
  lemma DivMagnitude(x: int, px: Prefix, y: int, py: Prefix, r: int, pr: Prefix)
    requires y != 0
    requires r == TruncDiv(MultiplyWithExponent(DimensionCorrectionFromDiv(pr, px, py), x), y)
    ensures y * Step(py) != 0
    ensures TowardZeroWithin((x * Step(px)) * Step(One), (r * Step(pr)) * (y * Step(py)),
                             Abs(y * Step(py)) * Step(pr))
  {
    var c := DimensionCorrectionFromDiv(pr, px, py);
    var d := MultiplyWithExponent(c, x);
    var s, k := Step(px) * Step(One), Step(py) * Step(pr);
    DivSteps(px, py, pr);
    if c >= 0 {
      DividedUp(x, y, r, Step(px), Step(py), Step(pr), Step(One), ExponentToMultiplier(c), s, k, d);
    } else {
      DividedDown(x, y, r, Step(px), Step(py), Step(pr), Step(One), ExponentToMultiplier(-c), s, k, d);
    }
  }

  /** The steps of a division: the correction `10^c` bridges the dividend's step in
      millionths and the product of the divisor's and the result's steps. */
  lemma DivSteps(px: Prefix, py: Prefix, pr: Prefix)
    ensures Step(px) * Step(One) > 0
    ensures var c := DimensionCorrectionFromDiv(pr, px, py);
      && (c >= 0 ==> ExponentToMultiplier(c) * (Step(py) * Step(pr)) == Step(px) * Step(One))
      && (c < 0 ==> ExponentToMultiplier(-c) * (Step(px) * Step(One)) == Step(py) * Step(pr))
  {
    StepPowers(px, py, pr);
    PowersBridge(Exponent(px) + 6, 6, Exponent(py) + 6, Exponent(pr) + 6, DimensionCorrectionFromDiv(pr, px, py),
      Step(px), Step(One), Step(py), Step(pr));
  }

  /** The corrected dividend `d = x * m`: scaled up, with `10^a * 10^u == s == m * k` and `10^b * 10^t == k`. */
  lemma DividedUp(x: int, y: int, r: int, ea: int, eb: int, et: int, eu: int, m: int, s: int, k: int, d: int)
    requires y != 0 && eb >= 1 && et >= 1 && ea * eu == s && eb * et == k && m * k == s
    requires d == x * m && r == TruncDiv(d, y)
    ensures y * eb != 0
    ensures TowardZeroWithin((x * ea) * eu, (r * et) * (y * eb), Abs(y * eb) * et)
  {
    MulMonotone(1, eb, et);
    DividedAfterScalingUp(x, y, r, m, k, s, d);
    DivRearrange(x, r, y, ea, eb, et, eu, s, k);
  }

  /** The corrected dividend `d = x / m`: scaled down, with `m * s == k`. */
  lemma DividedDown(x: int, y: int, r: int, ea: int, eb: int, et: int, eu: int, m: int, s: int, k: int, d: int)
    requires y != 0 && eb >= 1 && m > 0 && s > 0 && ea * eu == s && eb * et == k && m * s == k
    requires d == TruncDiv(x, m) && r == TruncDiv(d, y)
    ensures y * eb != 0
    ensures TowardZeroWithin((x * ea) * eu, (r * et) * (y * eb), Abs(y * eb) * et)
  {
    TruncDivNested(x, m, y);
    DividedAfterScalingDown(x, y, r, m, s, k);
    DivRearrange(x, r, y, ea, eb, et, eu, s, k);
  }

  lemma DividedAfterScalingUp(x: int, y: int, r: int, m: int, k: int, s: int, d: int)
    requires y != 0 && k > 0 && m * k == s
    requires d == x * m && r == TruncDiv(d, y)
    ensures TowardZeroWithin(x * s, (r * y) * k, Abs(y) * k)
  {
    ScaleTowardZero(d, r * y, Abs(y), k);
    ReassociateProduct(x, m, k);
    SwapFactors(k, m);
  }

  lemma DividedAfterScalingDown(x: int, y: int, r: int, m: int, s: int, k: int)
    requires y != 0 && m > 0 && s > 0 && m * s == k
    requires r == TruncDiv(x, m * y)
    ensures TowardZeroWithin(x * s, (r * y) * k, Abs(y) * k)
  {
    var my := m * y;
    assert TowardZeroWithin(x * s, (r * my) * s, Abs(my) * s) by {
      ScaleTowardZero(x, r * my, Abs(my), s);
    }
    assert Abs(my) * s == Abs(y) * k by {
      AbsMul(m, y);
      ReassociateProduct(Abs(y), m, s);
      SwapFactors(Abs(m), Abs(y));
    }
    assert (r * my) * s == (r * y) * k by {
      ReassociateProduct(r * y, m, s);
      ReassociateProduct(r, y, m);
      SwapFactors(m, y);
    }
  }

  /** Regrouping the powers of ten of `DivMagnitude`'s two cases into amounts. */
  lemma DivRearrange(x: int, r: int, y: int, ea: int, eb: int, et: int, eu: int, s: int, k: int)
    requires y != 0 && eb >= 1 && ea * eu == s && eb * et == k
    requires TowardZeroWithin(x * s, (r * y) * k, Abs(y) * k)
    ensures y * eb != 0
    ensures TowardZeroWithin((x * ea) * eu, (r * et) * (y * eb), Abs(y * eb) * et)
  {
    assert (x * ea) * eu == x * s by {
      ReassociateProduct(x, ea, eu);
      SwapFactors(eu, ea);
    }
    assert (r * et) * (y * eb) == (r * y) * k by {
      Rearrange(r, et, y, eb);
      SwapFactors(et, eb);
    }
    assert Abs(y * eb) * et == Abs(y) * k by {
      AbsMul(y, eb);
      ReassociateProduct(Abs(y), eb, et);
      SwapFactors(et, eb);
    }
    assert y * eb != 0 by {
      AbsMul(y, eb);
      MulMonotone(1, Abs(y), eb);
    }
  }
}
