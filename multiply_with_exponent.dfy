/** Scaling a raw integer by a power of ten: multiplication for a non-negative
    exponent, truncating division for a negative one. */
module Exponents {
  import opened Integers
  import opened Arithmetic

  /** Ten to the `n`, built up one decade at a time from `10^0 = 1`. */
  function ExponentToMultiplier(n: nat): (m: nat)
    ensures m >= 1
  {
    if n == 0 then 1 else 10 * ExponentToMultiplier(n - 1)
  }

  /** Powers of ten multiply by adding their exponents. */
  lemma {:induction false} ExponentToMultiplierAdd(a: nat, b: nat)
    ensures ExponentToMultiplier(a + b) == ExponentToMultiplier(a) * ExponentToMultiplier(b)
  {
    if a > 0 {
      ExponentToMultiplierAdd(a - 1, b);
      assert ExponentToMultiplier(a + b) == 10 * ExponentToMultiplier(a - 1 + b);
    }
  }

  /** `ExponentToMultiplierAdd` with the sum of the exponents given by name. */
  lemma ExponentToMultiplierSum(a: nat, b: nat, sum: nat)
    requires a + b == sum
    ensures ExponentToMultiplier(sum) == ExponentToMultiplier(a) * ExponentToMultiplier(b)
  {
    ExponentToMultiplierAdd(a, b);
  }

  /** A larger exponent never gives a smaller power. */
  lemma ExponentToMultiplierMonotone(a: nat, b: nat)
    requires a <= b
    ensures ExponentToMultiplier(a) <= ExponentToMultiplier(b)
  {
    ExponentToMultiplierAdd(a, b - a);
    MulMonotone(1, ExponentToMultiplier(b - a), ExponentToMultiplier(a));
  }

  /** `val * 10^exponent`, where a negative exponent divides by `10^-exponent` and
      truncates toward zero as C++ integer division does. */
  function MultiplyWithExponent(exponent: int, val: int): (r: int)
    ensures exponent >= 0 ==> r == val * ExponentToMultiplier(exponent)
    ensures exponent < 0 ==>
      TowardZeroWithin(val, r * ExponentToMultiplier(-exponent), ExponentToMultiplier(-exponent))
    ensures exponent < 0 ==> Abs(r) <= Abs(val) && (if val >= 0 then 0 <= r <= val else val <= r <= 0)
  {
    if exponent >= 0 then
      val * ExponentToMultiplier(exponent)
    else
      var q := TruncDiv(val, ExponentToMultiplier(-exponent));
      DivisionStaysBetween(val, ExponentToMultiplier(-exponent));
      q
  }

  /** The type `ExponentToMultiplier<n>::value` takes part in arithmetic as: the
      enumerator of `<n - 1>` promotes to `int`, so the initializer `10 * …` is
      an `int` product. Up to `n == 9` it is a constant expression whose value the
      type holds; from `n == 10` on it overflows and the template does not compile,
      which is the precondition. */
  function MultiplierType(n: nat): (t: IntType)
    requires n <= 9
    ensures t.signed && t.bits == 32
    ensures InRange(t, ExponentToMultiplier(n))
  {
    MultiplierFits(n);
    Int32
  }

  /** Ten to the `n` fits `int` exactly up to `n == 9`. */
  lemma MultiplierFits(n: nat)
    ensures n <= 9 <==> ExponentToMultiplier(n) <= MaxValue(Int32)
  {
    assert ExponentToMultiplier(9) == 1_000_000_000;
    assert ExponentToMultiplier(10) == 10 * ExponentToMultiplier(9);
    if n <= 9 {
      ExponentToMultiplierMonotone(n, 9);
    } else {
      ExponentToMultiplierMonotone(10, n);
    }
  }

  /** The initializer of `ExponentToMultiplier<10>` multiplies the `int` value
      `10^9` by ten, which overflows `int`: the first exponent that does not
      compile. */
  lemma MultiplierInitializerOverflowsAtTen()
    ensures InRange(Int32, ExponentToMultiplier(9))
    ensures !InRange(Int32, 10 * ExponentToMultiplier(9))
  {
    MultiplierFits(9);
    MultiplierFits(10);
  }

  /** `MultiplyWithExponent<exponent>(val)` for `val` of type `t` compiles and is
      well defined: the enumerator for `|exponent|` exists and the product or
      quotient with it does not overflow. Such a rescale is one by at most nine
      decades. */
  predicate CanMultiplyWithExponentAs(t: IntType, exponent: int, val: int): (ok: bool)
    ensures ok ==> -9 <= exponent <= 9
  {
    var n := Abs(exponent);
    && n <= 9
    && CanApply(if exponent >= 0 then Times else Divide, t, val, MultiplierType(n), ExponentToMultiplier(n))
  }

  /** `MultiplyWithExponent<exponent>(val)` for `val` of type `t`: `val` times or
      divided by the enumerator in their common type, returned as a `t`. For a
      `val` of `t` it is the mathematical rescale cast to `t`. */
  function MultiplyWithExponentAs(t: IntType, exponent: int, val: int): (r: int)
    requires CanMultiplyWithExponentAs(t, exponent, val)
    ensures InRange(t, r)
    ensures InRange(t, val) ==> r == Wrap(t, MultiplyWithExponent(exponent, val))
  {
    var n := Abs(exponent);
    var op := if exponent >= 0 then Times else Divide;
    ScaledOperandsExact(t, exponent, val);
    Wrap(t, Apply(op, t, val, MultiplierType(n), ExponentToMultiplier(n)))
  }

  lemma ScaledOperandsExact(t: IntType, exponent: int, val: int)
    requires CanMultiplyWithExponentAs(t, exponent, val)
    ensures var n := Abs(exponent);
      var op := if exponent >= 0 then Times else Divide;
      InRange(t, val) ==>
        Wrap(t, Apply(op, t, val, MultiplierType(n), ExponentToMultiplier(n))) == Wrap(t, MultiplyWithExponent(exponent, val))
  {
    var n := Abs(exponent);
    var op := if exponent >= 0 then Times else Divide;
    var u, m := MultiplierType(n), ExponentToMultiplier(n);
    var c := CommonType(t, u);
    if InRange(t, val) {
      ConvertOperands(t, val, u, m);
      assert Exact(op, Wrap(c, val), Wrap(c, m)) == MultiplyWithExponent(exponent, val);
      WrapWiden(t, c, MultiplyWithExponent(exponent, val));
    }
  }

  /** A rescale whose mathematical result fits `t` is well defined. */
  lemma CanMultiplyWithExponentAsIfFits(t: IntType, exponent: int, val: int)
    requires InRange(t, val) && Abs(exponent) <= 9
    requires InRange(t, MultiplyWithExponent(exponent, val))
    ensures CanMultiplyWithExponentAs(t, exponent, val)
  {
    var n := Abs(exponent);
    var u, m := MultiplierType(n), ExponentToMultiplier(n);
    var c := CommonType(t, u);
    ConvertOperands(t, val, u, m);
    if c.signed {
      Widen(t, c, MultiplyWithExponent(exponent, val));
    }
  }

  lemma DivisionStaysBetween(val: int, m: int)
    requires m >= 1
    ensures var q := TruncDiv(val, m); if val >= 0 then 0 <= q <= val else val <= q <= 0
  {
    var q := TruncDiv(val, m);
    if val >= 0 && q < 0 {
      MulMonotone(q, -1, m);
    } else if val < 0 && q > 0 {
      MulMonotone(1, q, m);
    }
  }

  /** Exponent zero leaves the value alone. */
  lemma MultiplyWithExponentZero(val: int)
    ensures MultiplyWithExponent(0, val) == val
  {
  }

  /** Scaling up and back down by the same number of decades returns the value. */
  lemma MultiplyWithExponentUpDown(e: nat, val: int)
    ensures MultiplyWithExponent(-(e as int), MultiplyWithExponent(e, val)) == val
  {
    if e > 0 {
      TruncDivExact(val, ExponentToMultiplier(e));
    }
  }

  /** Two upward scalings compose into one by the summed exponent. */
  lemma MultiplyWithExponentComposeUp(e1: nat, e2: nat, val: int)
    ensures MultiplyWithExponent(e2, MultiplyWithExponent(e1, val)) == MultiplyWithExponent(e1 + e2, val)
  {
    ExponentToMultiplierAdd(e1, e2);
    ReassociateProduct(val, ExponentToMultiplier(e1), ExponentToMultiplier(e2));
    assert ExponentToMultiplier(e1) * ExponentToMultiplier(e2) == ExponentToMultiplier(e2) * ExponentToMultiplier(e1);
  }

  /** Two downward scalings compose into one by the summed exponent: truncating
      twice loses no more than truncating once. */
  lemma MultiplyWithExponentComposeDown(e1: nat, e2: nat, val: int)
    requires e1 > 0 && e2 > 0
    ensures MultiplyWithExponent(-(e2 as int), MultiplyWithExponent(-(e1 as int), val)) == MultiplyWithExponent(-((e1 + e2) as int), val)
  {
    ExponentToMultiplierAdd(e1, e2);
    TruncDivNested(val, ExponentToMultiplier(e1), ExponentToMultiplier(e2));
  }

  /** A downward scaling never leaves the storage type of its input, so only an
      upward one can overflow it. */
  lemma MultiplyWithExponentDownFits(t: IntType, exponent: int, val: int)
    requires exponent < 0 && InRange(t, val)
    ensures InRange(t, MultiplyWithExponent(exponent, val))
  {
  }
}
