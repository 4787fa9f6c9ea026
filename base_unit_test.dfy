/** The unit tests of the base unit, as lemmas and methods about a test unit
    stored as 16-bit milli-units. */
module BaseUnitTest {
  import opened Integers
  import opened Arithmetic
  import opened Exponents
  import opened Prefixes
  import opened Units

  const DummyType := Representation(Milli, Int16)
  const TestUnit := Unit(Dimension("Dummy_t"), DummyType)

  const a := 1
  const b := 2

  /** `Create(val)`: `From<Milli>(val)`, which for a milli base stores `val` as is. */
  function Create(val: int): (q: Quantity)
    requires InRange(Int16, val)
    ensures q.unit == TestUnit && q.WellFormed() && q.raw == val
  {
    RescaleDefined(Int16, Milli, Milli, val);
    From(TestUnit, Milli, val)
  }

  lemma CreatedByFromRawMatchesArgument()
    ensures CanMultiplyWithExponentAs(Int16, DecadesDiff(Milli, Milli), Create(a).raw)
    ensures To(Create(a), Milli) == a
  {
    ToBase(Create(a));
  }

  /** `x = rhs` on a variable `x` initialised with `lhs`. */
  method Assigned(lhs: Quantity, rhs: Quantity) returns (result: Quantity)
    requires lhs.unit == rhs.unit && lhs.WellFormed() && rhs.WellFormed()
    ensures result == rhs
  {
    var x := new BaseUnit(lhs);
    var y := new BaseUnit(rhs);
    var _ := x.Assign(y);
    result := x.Get();
  }

  /** `x = Create(b)` overwrites the value created from `a`. */
  method SimpleAssignmentValueIsStored() returns (result: Quantity)
    ensures result.unit == TestUnit && result.WellFormed() && result.raw == b
  {
    result := Assigned(Create(a), Create(b));
  }

  /** `x += rhs` on a variable `x` initialised with `lhs`. */
  method AddAssigned(lhs: Quantity, rhs: Quantity) returns (result: Quantity)
    requires lhs.unit == rhs.unit && lhs.WellFormed() && rhs.WellFormed()
    requires CanApply(Plus, lhs.unit.ValueType(), lhs.raw, lhs.unit.ValueType(), rhs.raw)
    ensures result == Add(lhs, rhs)
  {
    var x := new BaseUnit(lhs);
    var y := new BaseUnit(rhs);
    var _ := x.AddAssign(y);
    result := x.Get();
  }

  /** `x -= rhs` on a variable `x` initialised with `lhs`. */
  method SubAssigned(lhs: Quantity, rhs: Quantity) returns (result: Quantity)
    requires lhs.unit == rhs.unit && lhs.WellFormed() && rhs.WellFormed()
    requires CanApply(Minus, lhs.unit.ValueType(), lhs.raw, lhs.unit.ValueType(), rhs.raw)
    ensures result == Sub(lhs, rhs)
  {
    var x := new BaseUnit(lhs);
    var y := new BaseUnit(rhs);
    var _ := x.SubAssign(y);
    result := x.Get();
  }

  /** `x += Create(b)` leaves what `standardX += b` gives for the storage type. */
  method AdditionAssignmentMatchesBuiltIn() returns (result: Quantity)
    ensures result.unit == TestUnit && Eq(result, Create(a + b))
  {
    AdditionResultIsSum();
    result := AddAssigned(Create(a), Create(b));
  }

  /** `x -= Create(b)` leaves what `standardX -= b` gives for the storage type. */
  method SubtractionAssignmentMatchesBuiltIn() returns (result: Quantity)
    ensures result.unit == TestUnit && Eq(result, Create(a - b))
  {
    SubtractionResultIsDiff();
    result := SubAssigned(Create(a), Create(b));
  }

  lemma UnaryMinusValueIsInverted()
    ensures Defined(Int32, -a) && Eq(Neg(Create(a)), Create(-a))
    ensures Defined(Int32, a) && Eq(Neg(Create(-a)), Create(a))
  {
    NegFits(Create(a));
    NegFits(Create(-a));
  }

  lemma AdditionResultIsSum()
    ensures CanApply(Plus, Int16, a, Int16, b)
    ensures Eq(Add(Create(a), Create(b)), Create(a + b))
  {
    AddFits(Create(a), Create(b));
  }

  lemma SubtractionResultIsDiff()
    ensures CanApply(Minus, Int16, a, Int16, b)
    ensures Eq(Sub(Create(a), Create(b)), Create(a - b))
  {
    SubFits(Create(a), Create(b));
  }

  lemma EqualityChecks()
    ensures Eq(Create(a), Create(a))
    ensures Ne(Create(a), Create(b))
  {
  }

  /** `small + epsilon` and `large + epsilon` are the raw sums. */
  lemma OrderingSums()
    ensures CanApply(Plus, Int16, 10, Int16, 1) && Add(Create(10), Create(1)).raw == 11
    ensures CanApply(Plus, Int16, 20, Int16, 1) && Add(Create(20), Create(1)).raw == 21
  {
    AddFits(Create(10), Create(1));
    AddFits(Create(20), Create(1));
  }

  /** `small - epsilon` and `large - epsilon` are the raw differences. */
  lemma OrderingDifferences()
    ensures CanApply(Minus, Int16, 10, Int16, 1) && Sub(Create(10), Create(1)).raw == 9
    ensures CanApply(Minus, Int16, 20, Int16, 1) && Sub(Create(20), Create(1)).raw == 19
  {
    SubFits(Create(10), Create(1));
    SubFits(Create(20), Create(1));
  }

  lemma LessThanChecks()
    ensures Lt(Create(10), Create(20)) && !Lt(Create(20), Create(10)) && !Lt(Create(10), Create(10))
  {
  }

  lemma LessThanSumChecks()
    ensures CanApply(Plus, Int16, 10, Int16, 1) && Lt(Create(10), Add(Create(10), Create(1)))
  {
    OrderingSums();
  }

  lemma LessThanDifferenceChecks()
    ensures CanApply(Minus, Int16, 10, Int16, 1) && Lt(Sub(Create(10), Create(1)), Create(10))
  {
    OrderingDifferences();
  }

  lemma GreaterThanChecks()
    ensures Gt(Create(20), Create(10)) && !Gt(Create(20), Create(20)) && !Gt(Create(10), Create(20))
  {
  }

  lemma GreaterThanSumChecks()
    ensures CanApply(Plus, Int16, 20, Int16, 1) && Gt(Add(Create(20), Create(1)), Create(20))
  {
    OrderingSums();
  }

  lemma GreaterThanDifferenceChecks()
    ensures CanApply(Minus, Int16, 20, Int16, 1) && Gt(Create(20), Sub(Create(20), Create(1)))
  {
    OrderingDifferences();
  }

  lemma LessOrEqualChecks()
    ensures Le(Create(10), Create(10)) && !Le(Create(20), Create(10))
    ensures Ge(Create(20), Create(20)) && !Ge(Create(10), Create(20))
  {
  }

  /** `max()` and `min()` read back as the limits of the 16-bit storage type. */
  lemma LimitsChecks()
    ensures CanMultiplyWithExponentAs(Int16, DecadesDiff(Milli, Milli), MaxValue(Int16))
    ensures CanMultiplyWithExponentAs(Int16, DecadesDiff(Milli, Milli), MinValue(Int16))
    ensures To(Max(TestUnit), Milli) == MaxValue(Int16) == 32767
    ensures To(Min(TestUnit), Milli) == MinValue(Int16) == -32768
  {
    LimitsReadBack(TestUnit);
  }
}
