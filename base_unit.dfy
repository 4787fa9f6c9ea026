/** `BaseUnit<TypeTag, T_Representation>`: a physical quantity stored as one raw
    integer, tagged with a dimension and denominated in a fixed base prefix.
    Values are the datatype `Quantity`; the class `BaseUnit` is a variable of such
    a type, for the operators that overwrite `m_value` in place. Arithmetic and
    comparison between two quantities is only defined for one and the same unit
    type, which the source enforces by overload resolution. */
module Units {
  import opened Integers
  import opened Arithmetic
  import opened Prefixes
  import opened Exponents

  /** A dimension tag: an empty marker struct such as `Ampere_t`, known by its name. */
  datatype Dimension = Dimension(name: string)

  /** `T_Representation`: the base prefix the raw value is denominated in and its storage type. */
  datatype Representation = Representation(basePrefix: Prefix, valueType: IntType)

  /** An instantiated unit type `BaseUnit<TypeTag, T_Representation>`. */
  datatype Unit = Unit(tag: Dimension, rep: Representation)
  {
    function BasePrefix(): Prefix { rep.basePrefix }
    function ValueType(): IntType { rep.valueType }
  }

  /** A value of a unit type, with its raw `m_value`. */
  datatype Quantity = Quantity(unit: Unit, raw: int)
  {
    /** The raw value is representable in the unit's storage type. */
    predicate WellFormed()
    {
      InRange(unit.ValueType(), raw)
    }

    /** The physical amount as a whole number of millionths (micro, the finest
        prefix) of the unscaled unit: the raw value with its base prefix applied.
        It is a whole number of base-prefix steps, with the raw value's sign. */
    function Magnitude(): (m: int)
      ensures m % Step(unit.BasePrefix()) == 0
      ensures (m < 0 <==> raw < 0) && (m == 0 <==> raw == 0)
    {
      raw * Step(unit.BasePrefix())
    }
  }

  /** One raw step of a value denominated in `p`, counted in millionths. */
  function Step(p: Prefix): (s: nat)
    ensures s >= 1
  {
    ExponentToMultiplier(Exponent(p) - Exponent(Micro))
  }

  /** A step of a coarser prefix is the finer step times ten to the decades between them. */
  lemma StepRatio(coarse: Prefix, fine: Prefix)
    requires Exponent(fine) <= Exponent(coarse)
    ensures Step(coarse) == Step(fine) * ExponentToMultiplier(DecadesDiff(coarse, fine))
  {
    ExponentToMultiplierAdd(Exponent(fine) - Exponent(Micro), DecadesDiff(coarse, fine));
  }

  /** `From<source>(val)`: the quantity of unit `u` for `val` denominated in
      `source`, rescaled to the base prefix in the storage type. When the rescaled
      value fits the storage type, rescaling to a finer base is exact and to a
      coarser base truncates toward zero, losing less than one base step. */
  function From(u: Unit, source: Prefix, val: int): (q: Quantity)
    requires InRange(u.ValueType(), val)
    requires CanMultiplyWithExponentAs(u.ValueType(), DecadesDiff(source, u.BasePrefix()), val)
    ensures q.unit == u && q.WellFormed()
    ensures q.raw == Wrap(u.ValueType(), MultiplyWithExponent(DecadesDiff(source, u.BasePrefix()), val))
    ensures InRange(u.ValueType(), MultiplyWithExponent(DecadesDiff(source, u.BasePrefix()), val)) ==>
      TowardZeroWithin(val * Step(source), q.Magnitude(), Step(u.BasePrefix()))
    ensures (InRange(u.ValueType(), MultiplyWithExponent(DecadesDiff(source, u.BasePrefix()), val)) &&
             Exponent(u.BasePrefix()) <= Exponent(source)) ==> q.Magnitude() == val * Step(source)
  {
    var d := DecadesDiff(source, u.BasePrefix());
    var q := Quantity(u, MultiplyWithExponentAs(u.ValueType(), d, val));
    RescaleMagnitude(val, source, MultiplyWithExponent(d, val), u.BasePrefix());
    q
  }

  /** A rescale whose result fits the storage type is well defined. */
  lemma RescaleDefined(t: IntType, source: Prefix, target: Prefix, val: int)
    requires InRange(t, val) && InRange(t, MultiplyWithExponent(DecadesDiff(source, target), val))
    ensures CanMultiplyWithExponentAs(t, DecadesDiff(source, target), val)
  {
    CanMultiplyWithExponentAsIfFits(t, DecadesDiff(source, target), val);
  }

  /** `raw` is `val` rescaled from prefix `p` to prefix `b`: as amounts, the rescaled
      value is the original one cut toward zero to a whole step of `b`. */
  lemma RescaleMagnitude(val: int, p: Prefix, raw: int, b: Prefix)
    requires raw == MultiplyWithExponent(DecadesDiff(p, b), val)
    ensures TowardZeroWithin(val * Step(p), raw * Step(b), Step(b))
    ensures Exponent(b) <= Exponent(p) ==> raw * Step(b) == val * Step(p)
  {
    var d := DecadesDiff(p, b);
    if d >= 0 {
      var m := ExponentToMultiplier(d);
      StepRatio(p, b);
      SwapFactors(Step(b), m);
      ScaledUp(val, raw, m, Step(b), Step(p));
    } else {
      var m := ExponentToMultiplier(-d);
      StepRatio(b, p);
      assert DecadesDiff(b, p) == -d;
      SwapFactors(Step(p), m);
      ScaledDown(val, raw, m, Step(p), Step(b));
    }
  }

  /** `To<target>()`: the raw value re-denominated in `target`, in the storage
      type. When that fits, it is exact toward a finer prefix and truncated toward
      zero toward a coarser one. */
  function To(q: Quantity, target: Prefix): (r: int)
    requires q.WellFormed()
    requires CanMultiplyWithExponentAs(q.unit.ValueType(), DecadesDiff(q.unit.BasePrefix(), target), q.raw)
    ensures InRange(q.unit.ValueType(), r)
    ensures r == Wrap(q.unit.ValueType(), MultiplyWithExponent(DecadesDiff(q.unit.BasePrefix(), target), q.raw))
    ensures InRange(q.unit.ValueType(), MultiplyWithExponent(DecadesDiff(q.unit.BasePrefix(), target), q.raw)) ==>
      TowardZeroWithin(q.Magnitude(), r * Step(target), Step(target))
    ensures (InRange(q.unit.ValueType(), MultiplyWithExponent(DecadesDiff(q.unit.BasePrefix(), target), q.raw)) &&
             Exponent(target) <= Exponent(q.unit.BasePrefix())) ==> r * Step(target) == q.Magnitude()
  {
    var d := DecadesDiff(q.unit.BasePrefix(), target);
    RescaleMagnitude(q.raw, q.unit.BasePrefix(), MultiplyWithExponent(d, q.raw), target);
    MultiplyWithExponentAs(q.unit.ValueType(), d, q.raw)
  }

  /** `To<BasePrefix>()` is the raw value itself. */
  lemma ToBase(q: Quantity)
    requires q.WellFormed()
    ensures CanMultiplyWithExponentAs(q.unit.ValueType(), DecadesDiff(q.unit.BasePrefix(), q.unit.BasePrefix()), q.raw)
    ensures To(q, q.unit.BasePrefix()) == q.raw
  {
    RescaleDefined(q.unit.ValueType(), q.unit.BasePrefix(), q.unit.BasePrefix(), q.raw);
  }

  /** Reading back in the base prefix gives the stored value. */
  lemma FromToBase(u: Unit, val: int)
    requires InRange(u.ValueType(), val)
    ensures CanMultiplyWithExponentAs(u.ValueType(), DecadesDiff(u.BasePrefix(), u.BasePrefix()), val)
    ensures From(u, u.BasePrefix(), val).raw == val
    ensures To(From(u, u.BasePrefix(), val), u.BasePrefix()) == val
  {
    RescaleDefined(u.ValueType(), u.BasePrefix(), u.BasePrefix(), val);
  }

  /** From a prefix no finer than the base, when the rescaled value fits, constructing
      and reading back is exact. */
  lemma FromToRoundTrip(u: Unit, source: Prefix, val: int)
    requires Exponent(u.BasePrefix()) <= Exponent(source)
    requires InRange(u.ValueType(), val)
    requires InRange(u.ValueType(), MultiplyWithExponent(DecadesDiff(source, u.BasePrefix()), val))
    ensures CanMultiplyWithExponentAs(u.ValueType(), DecadesDiff(source, u.BasePrefix()), val)
    ensures var q := From(u, source, val);
      && CanMultiplyWithExponentAs(u.ValueType(), DecadesDiff(u.BasePrefix(), source), q.raw)
      && To(q, source) == val
  {
    var d := DecadesDiff(source, u.BasePrefix());
    RescaleDefined(u.ValueType(), source, u.BasePrefix(), val);
    MultiplyWithExponentUpDown(d, val);
    DecadesDiffAntisymmetric(source, u.BasePrefix());
    RescaleDefined(u.ValueType(), u.BasePrefix(), source, MultiplyWithExponent(d, val));
  }

  /** From a prefix finer than the base, constructing and reading back truncates
      `val` toward zero to a multiple of the decades between the two. */
  lemma FromToTruncates(u: Unit, source: Prefix, val: int)
    requires Exponent(source) < Exponent(u.BasePrefix())
    requires InRange(u.ValueType(), val)
    ensures CanMultiplyWithExponentAs(u.ValueType(), DecadesDiff(source, u.BasePrefix()), val)
    ensures var q := From(u, source, val);
      && CanMultiplyWithExponentAs(u.ValueType(), DecadesDiff(u.BasePrefix(), source), q.raw)
      && To(q, source) == TruncDiv(val, ExponentToMultiplier(DecadesDiff(u.BasePrefix(), source))) * ExponentToMultiplier(DecadesDiff(u.BasePrefix(), source))
      && TowardZeroWithin(val, To(q, source), ExponentToMultiplier(DecadesDiff(u.BasePrefix(), source)))
  {
    var d := DecadesDiff(u.BasePrefix(), source);
    var m := ExponentToMultiplier(d);
    MultiplyWithExponentDownFits(u.ValueType(), DecadesDiff(source, u.BasePrefix()), val);
    RescaleDefined(u.ValueType(), source, u.BasePrefix(), val);
    var raw := TruncDiv(val, m);
    assert TowardZeroWithin(val, raw * m, m);
    assert InRange(u.ValueType(), raw * m);
    RescaleDefined(u.ValueType(), u.BasePrefix(), source, raw);
  }

  /** Unary minus: the negated raw value, computed after promotion and stored
      back into the storage type. */
  function Neg(q: Quantity): (r: Quantity)
    requires q.WellFormed() && Defined(Promote(q.unit.ValueType()), -q.raw)
    ensures r.unit == q.unit && r.WellFormed()
    ensures r.raw == Wrap(q.unit.ValueType(), -q.raw)
    ensures InRange(q.unit.ValueType(), -q.raw) ==> r.Magnitude() == -q.Magnitude()
  {
    NegateLeft(q.raw, Step(q.unit.BasePrefix()));
    Quantity(q.unit, Wrap(q.unit.ValueType(), Negate(q.unit.ValueType(), q.raw)))
  }

  /** `+`: the raw sum, computed after promotion and stored back into the storage type. */
  function Add(a: Quantity, b: Quantity): (r: Quantity)
    requires a.unit == b.unit && a.WellFormed() && b.WellFormed()
    requires CanApply(Plus, a.unit.ValueType(), a.raw, a.unit.ValueType(), b.raw)
    ensures r.unit == a.unit && r.WellFormed()
    ensures r.raw == Wrap(a.unit.ValueType(), a.raw + b.raw)
    ensures InRange(a.unit.ValueType(), a.raw + b.raw) ==> r.Magnitude() == a.Magnitude() + b.Magnitude()
  {
    ApplySameType(Plus, a.unit.ValueType(), a.raw, b.raw);
    Distribute(a.raw, b.raw, Step(a.unit.BasePrefix()));
    Quantity(a.unit, Wrap(a.unit.ValueType(), Apply(Plus, a.unit.ValueType(), a.raw, a.unit.ValueType(), b.raw)))
  }

  /** `-`: the raw difference, computed after promotion and stored back into the storage type. */
  function Sub(a: Quantity, b: Quantity): (r: Quantity)
    requires a.unit == b.unit && a.WellFormed() && b.WellFormed()
    requires CanApply(Minus, a.unit.ValueType(), a.raw, a.unit.ValueType(), b.raw)
    ensures r.unit == a.unit && r.WellFormed()
    ensures r.raw == Wrap(a.unit.ValueType(), a.raw - b.raw)
    ensures InRange(a.unit.ValueType(), a.raw - b.raw) ==> r.Magnitude() == a.Magnitude() - b.Magnitude()
  {
    ApplySameType(Minus, a.unit.ValueType(), a.raw, b.raw);
    Distribute(a.raw, -b.raw, Step(a.unit.BasePrefix()));
    NegateLeft(b.raw, Step(a.unit.BasePrefix()));
    Quantity(a.unit, Wrap(a.unit.ValueType(), Apply(Minus, a.unit.ValueType(), a.raw, a.unit.ValueType(), b.raw)))
  }

  /** Where the negated raw value fits, unary minus is defined and exact. */
  lemma NegFits(q: Quantity)
    requires q.WellFormed() && InRange(q.unit.ValueType(), -q.raw)
    ensures Defined(Promote(q.unit.ValueType()), -q.raw)
    ensures Neg(q).raw == -q.raw
  {
    var t := q.unit.ValueType();
    if Promote(t).signed {
      Widen(t, Promote(t), -q.raw);
    }
  }

  /** Where the raw sum fits, `+` is defined and exact. */
  lemma AddFits(a: Quantity, b: Quantity)
    requires a.unit == b.unit && a.WellFormed() && b.WellFormed()
    requires InRange(a.unit.ValueType(), a.raw + b.raw)
    ensures CanApply(Plus, a.unit.ValueType(), a.raw, a.unit.ValueType(), b.raw)
    ensures Add(a, b).raw == a.raw + b.raw
  {
    FitsIsDefined(Plus, a.unit.ValueType(), a.raw, b.raw);
  }

  /** Where the raw difference fits, `-` is defined and exact. */
  lemma SubFits(a: Quantity, b: Quantity)
    requires a.unit == b.unit && a.WellFormed() && b.WellFormed()
    requires InRange(a.unit.ValueType(), a.raw - b.raw)
    ensures CanApply(Minus, a.unit.ValueType(), a.raw, a.unit.ValueType(), b.raw)
    ensures Sub(a, b).raw == a.raw - b.raw
  {
    FitsIsDefined(Minus, a.unit.ValueType(), a.raw, b.raw);
  }

  /** Negating twice gives the quantity back, also where the storage type wraps. */
  lemma NegInvolutive(q: Quantity)
    requires q.WellFormed() && Defined(Promote(q.unit.ValueType()), -q.raw)
    ensures Defined(Promote(q.unit.ValueType()), -Neg(q).raw)
    ensures Neg(Neg(q)) == q
  {
    var t, x, r := q.unit.ValueType(), q.raw, Neg(q).raw;
    assert Defined(Promote(t), -r) by {
      if t.bits < 32 {
        SmallNegationFits(t, r);
      }
    }
    WrapNegateNegated(t, x, r);
  }

  /** Both orders of the operands give the same sum. */
  lemma AddCommutative(a: Quantity, b: Quantity)
    requires a.unit == b.unit && a.WellFormed() && b.WellFormed()
    requires CanApply(Plus, a.unit.ValueType(), a.raw, a.unit.ValueType(), b.raw)
    ensures CanApply(Plus, a.unit.ValueType(), b.raw, a.unit.ValueType(), a.raw)
    ensures Add(a, b) == Add(b, a)
  {
  }

  /** Subtracting what was added gives the original quantity back, also where the
      storage type wraps. */
  lemma SubUndoesAdd(a: Quantity, b: Quantity)
    requires a.unit == b.unit && a.WellFormed() && b.WellFormed()
    requires CanApply(Plus, a.unit.ValueType(), a.raw, a.unit.ValueType(), b.raw)
    ensures CanApply(Minus, a.unit.ValueType(), Add(a, b).raw, a.unit.ValueType(), b.raw)
    ensures Sub(Add(a, b), b) == a
  {
    var t, s := a.unit.ValueType(), Add(a, b).raw;
    assert CanApply(Minus, t, s, t, b.raw) by {
      ConvertOperands(t, s, t, b.raw);
      if t.bits < 32 {
        SmallDifferenceFits(t, s, b.raw);
      }
    }
    WrapSubtractAdded(t, a.raw, b.raw, s);
  }

  /** Promoted to `int`, the negation of a narrower value cannot overflow. */
  lemma SmallNegationFits(t: IntType, x: int)
    requires t.bits < 32 && InRange(t, x)
    ensures InRange(Int32, -x)
  {
    Pow2Monotone(t.bits, 31);
  }

  /** Promoted to `int`, the difference of two narrower values cannot overflow. */
  lemma SmallDifferenceFits(t: IntType, x: int, y: int)
    requires t.bits < 32 && InRange(t, x) && InRange(t, y)
    ensures InRange(Int32, x - y)
  {
    Pow2Monotone(t.bits, 31);
  }

  /** A quantity times a raw scalar of its storage type. */
  function MulScalar(q: Quantity, s: int): (r: Quantity)
    requires q.WellFormed() && InRange(q.unit.ValueType(), s)
    requires CanApply(Times, q.unit.ValueType(), q.raw, q.unit.ValueType(), s)
    ensures r.unit == q.unit && r.WellFormed()
    ensures r.raw == Wrap(q.unit.ValueType(), q.raw * s)
    ensures InRange(q.unit.ValueType(), q.raw * s) ==> r.Magnitude() == q.Magnitude() * s
  {
    var step := Step(q.unit.BasePrefix());
    ApplySameType(Times, q.unit.ValueType(), q.raw, s);
    ReassociateProduct(q.raw, s, step);
    ReassociateProduct(q.raw, step, s);
    SwapFactors(step, s);
    Quantity(q.unit, Wrap(q.unit.ValueType(), Apply(Times, q.unit.ValueType(), q.raw, q.unit.ValueType(), s)))
  }

  /** A raw scalar times a quantity, defined as the quantity times the scalar. */
  function ScalarMul(s: int, q: Quantity): (r: Quantity)
    requires q.WellFormed() && InRange(q.unit.ValueType(), s)
    requires CanApply(Times, q.unit.ValueType(), q.raw, q.unit.ValueType(), s)
    ensures r.unit == q.unit && r.WellFormed()
    ensures r.raw == Wrap(q.unit.ValueType(), s * q.raw)
    ensures InRange(q.unit.ValueType(), s * q.raw) ==> r.Magnitude() == s * q.Magnitude()
  {
    MulScalar(q, s)
  }

  /** A quantity divided by a non-zero raw scalar of its storage type, truncated
      toward zero; when the quotient fits, the result times the scalar is the
      quantity cut toward zero by less than the scalar times one base step. */
  function DivScalar(q: Quantity, s: int): (r: Quantity)
    requires q.WellFormed() && InRange(q.unit.ValueType(), s) && s != 0
    requires CanApply(Divide, q.unit.ValueType(), q.raw, q.unit.ValueType(), s)
    ensures r.unit == q.unit && r.WellFormed()
    ensures r.raw == Wrap(q.unit.ValueType(), TruncDiv(q.raw, s))
    ensures InRange(q.unit.ValueType(), TruncDiv(q.raw, s)) ==>
      TowardZeroWithin(q.Magnitude(), r.Magnitude() * s, Abs(s) * Step(q.unit.BasePrefix()))
  {
    ApplySameType(Divide, q.unit.ValueType(), q.raw, s);
    var r := Quantity(q.unit, Wrap(q.unit.ValueType(), Apply(Divide, q.unit.ValueType(), q.raw, q.unit.ValueType(), s)));
    ScaledQuotient(q.raw, s, TruncDiv(q.raw, s), Step(q.unit.BasePrefix()));
    r
  }

  lemma ScaledQuotient(a: int, s: int, quotient: int, step: nat)
    requires s != 0 && step >= 1
    requires TowardZeroWithin(a, quotient * s, Abs(s))
    ensures TowardZeroWithin(a * step, (quotient * step) * s, Abs(s) * step)
  {
    ScaleTowardZero(a, quotient * s, Abs(s), step);
    ReassociateProduct(quotient, s, step);
    ReassociateProduct(quotient, step, s);
    SwapFactors(step, s);
    SwapFactors(Abs(s), step);
  }

  lemma StrictMulMonotone(x: int, y: int, m: int)
    requires m >= 1
    ensures x < y <==> x * m < y * m
  {
    if x < y {
      MulMonotone(x + 1, y, m);
      Distribute(x, 1, m);
    } else {
      MulMonotone(y, x, m);
    }
  }

  /** `operator==`: equal raw values, so equal quantities and equal amounts. */
  function Eq(a: Quantity, b: Quantity): (e: bool)
    requires a.unit == b.unit
    ensures e <==> a == b
    ensures e <==> a.Magnitude() == b.Magnitude()
  {
    MagnitudeOrder(a, b);
    a.raw == b.raw
  }

  function Ne(a: Quantity, b: Quantity): (e: bool)
    requires a.unit == b.unit
    ensures e <==> a != b
    ensures e <==> a.Magnitude() != b.Magnitude()
  {
    MagnitudeOrder(a, b);
    a.raw != b.raw
  }

  function Lt(a: Quantity, b: Quantity): (e: bool)
    requires a.unit == b.unit
    ensures e <==> a.Magnitude() < b.Magnitude()
  {
    MagnitudeOrder(a, b);
    a.raw < b.raw
  }

  function Gt(a: Quantity, b: Quantity): (e: bool)
    requires a.unit == b.unit
    ensures e <==> a.Magnitude() > b.Magnitude()
  {
    MagnitudeOrder(b, a);
    a.raw > b.raw
  }

  function Le(a: Quantity, b: Quantity): (e: bool)
    requires a.unit == b.unit
    ensures e <==> a.Magnitude() <= b.Magnitude()
  {
    MagnitudeOrder(a, b);
    a.raw <= b.raw
  }

  function Ge(a: Quantity, b: Quantity): (e: bool)
    requires a.unit == b.unit
    ensures e <==> a.Magnitude() >= b.Magnitude()
  {
    MagnitudeOrder(b, a);
    a.raw >= b.raw
  }

  /** Raw values of one unit are ordered as the amounts they stand for. */
  lemma MagnitudeOrder(a: Quantity, b: Quantity)
    requires a.unit == b.unit
    ensures a.raw < b.raw <==> a.Magnitude() < b.Magnitude()
    ensures a.raw == b.raw <==> a.Magnitude() == b.Magnitude()
  {
    StrictMulMonotone(a.raw, b.raw, Step(a.unit.BasePrefix()));
    StrictMulMonotone(b.raw, a.raw, Step(a.unit.BasePrefix()));
  }

  /** Exactly one of `<`, `==`, `>` holds, and the derived comparisons agree with them. */
  lemma Trichotomy(a: Quantity, b: Quantity)
    requires a.unit == b.unit
    ensures (if Lt(a, b) then 1 else 0) + (if Eq(a, b) then 1 else 0) + (if Gt(a, b) then 1 else 0) == 1
    ensures Le(a, b) <==> Lt(a, b) || Eq(a, b)
    ensures Ge(a, b) <==> !Lt(a, b)
    ensures Gt(a, b) <==> Lt(b, a)
    ensures Ne(a, b) <==> !Eq(a, b)
  {
  }

  /** `max()`: the largest raw value of the storage type. */
  function Max(u: Unit): (q: Quantity)
    ensures q.unit == u && q.WellFormed()
    ensures q.raw == MaxValue(u.ValueType())
  {
    Quantity(u, MaxValue(u.ValueType()))
  }

  /** `min()`: the smallest raw value of the storage type. */
  function Min(u: Unit): (q: Quantity)
    ensures q.unit == u && q.WellFormed()
    ensures q.raw == MinValue(u.ValueType())
  {
    Quantity(u, MinValue(u.ValueType()))
  }

  /** Every quantity of a unit lies between its `min()` and its `max()`. */
  lemma LimitsBound(q: Quantity)
    requires q.WellFormed()
    ensures Le(Min(q.unit), q) && Le(q, Max(q.unit))
  {
  }

  /** Reading the limits back in the base prefix gives the storage type's limits. */
  lemma LimitsReadBack(u: Unit)
    ensures CanMultiplyWithExponentAs(u.ValueType(), DecadesDiff(u.BasePrefix(), u.BasePrefix()), MaxValue(u.ValueType()))
    ensures CanMultiplyWithExponentAs(u.ValueType(), DecadesDiff(u.BasePrefix(), u.BasePrefix()), MinValue(u.ValueType()))
    ensures To(Max(u), u.BasePrefix()) == MaxValue(u.ValueType())
    ensures To(Min(u), u.BasePrefix()) == MinValue(u.ValueType())
  {
    ToBase(Max(u));
    ToBase(Min(u));
  }

  /** A variable of a unit type, holding `m_value`. */
  class BaseUnit {
    const unit: Unit
    var value: int

    ghost predicate Valid()
      reads this
    {
      Get().WellFormed()
    }

    /** The quantity the variable currently holds. */
    function Get(): Quantity
      reads this
    {
      Quantity(unit, value)
    }

    /** A variable initialised with a copy of `q`. */
    constructor (q: Quantity)
      requires q.WellFormed()
      ensures Valid() && Get() == q
    {
      unit := q.unit;
      value := q.raw;
    }

    /** `operator=`: takes over the raw value of `rhs`. */
    method Assign(rhs: BaseUnit) returns (self: BaseUnit)
      requires rhs.unit == unit && rhs.Valid()
      modifies this
      ensures self == this && Valid()
      ensures Get() == old(rhs.Get())
    {
      value := rhs.value;
      self := this;
    }

    /** `operator+=`: the promoted raw sum is stored back in place, the same value `+` builds. */
    method AddAssign(rhs: BaseUnit) returns (self: BaseUnit)
      requires rhs.unit == unit && Valid() && rhs.Valid()
      requires CanApply(Plus, unit.ValueType(), value, unit.ValueType(), rhs.value)
      modifies this
      ensures self == this && Valid()
      ensures Get() == Add(old(Get()), old(rhs.Get()))
    {
      value := Wrap(unit.ValueType(), Apply(Plus, unit.ValueType(), value, unit.ValueType(), rhs.value));
      self := this;
    }

    /** `operator-=`: the promoted raw difference is stored back in place, the same value `-` builds. */
    method SubAssign(rhs: BaseUnit) returns (self: BaseUnit)
      requires rhs.unit == unit && Valid() && rhs.Valid()
      requires CanApply(Minus, unit.ValueType(), value, unit.ValueType(), rhs.value)
      modifies this
      ensures self == this && Valid()
      ensures Get() == Sub(old(Get()), old(rhs.Get()))
    {
      value := Wrap(unit.ValueType(), Apply(Minus, unit.ValueType(), value, unit.ValueType(), rhs.value));
      self := this;
    }
  }
}
