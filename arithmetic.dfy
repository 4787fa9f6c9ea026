/** C++ arithmetic on fixed-width integers, as the library's expressions evaluate
    it: operands narrower than `int` are promoted to `int`, the two operands of a
    binary operator are brought to a common type, signed overflow is undefined
    (a precondition here) and unsigned arithmetic wraps around. */
module Arithmetic {
  import opened Integers

  /** Integral promotion: a type narrower than `int` is computed in `int` (the 32-bit type). */
  function Promote(t: IntType): (p: IntType)
    ensures p.bits >= t.bits && p.bits >= 32
    ensures p.bits > t.bits ==> p.signed
    ensures !p.signed ==> p == t
    ensures t.bits >= 32 ==> p == t
  {
    if t.bits < 32 then Int32 else t
  }

  /** The usual arithmetic conversions: both promoted operands go to the wider
      type; when one is signed and the other unsigned, the unsigned one wins unless
      the signed one is strictly wider. Widths stand for conversion ranks. */
  function CommonType(t: IntType, u: IntType): (c: IntType)
    ensures c == Promote(t) || c == Promote(u)
    ensures c.bits >= t.bits && c.bits >= u.bits
    ensures c.signed && !t.signed ==> c.bits > t.bits
    ensures c.signed && !u.signed ==> c.bits > u.bits
    ensures !c.signed ==> !t.signed || !u.signed
    ensures t == u ==> c == Promote(t)
  {
    var p, q := Promote(t), Promote(u);
    if p.signed == q.signed then
      if p.bits >= q.bits then p else q
    else if p.signed then
      if q.bits >= p.bits then q else p
    else
      if p.bits >= q.bits then p else q
  }

  /** The result `v` of an operation in type `c` has defined behaviour: unsigned
      arithmetic wraps, signed arithmetic must not overflow. */
  predicate Defined(c: IntType, v: int)
  {
    c.signed ==> InRange(c, v)
  }

  datatype Operator = Plus | Minus | Times | Divide

  /** The mathematical value of `x op y`; `/` truncates toward zero. */
  function Exact(op: Operator, x: int, y: int): int
  {
    match op
    case Plus => x + y
    case Minus => x - y
    case Times => x * y
    case Divide => if y == 0 then 0 else TruncDiv(x, y)
  }

  /** `x op y` with `x` of type `t` and `y` of type `u` is well defined. For
      operands of their types' ranges in a signed common type, that is exactly: no
      division by zero, and the mathematical result fits the common type. */
  predicate CanApply(op: Operator, t: IntType, x: int, u: IntType, y: int): (ok: bool)
    ensures InRange(t, x) && InRange(u, y) && CommonType(t, u).signed ==>
      (ok <==> (op == Divide ==> y != 0) && InRange(CommonType(t, u), Exact(op, x, y)))
  {
    var c := CommonType(t, u);
    ConvertOperands(t, x, u, y);
    && (op == Divide ==> Wrap(c, y) != 0)
    && Defined(c, Exact(op, Wrap(c, x), Wrap(c, y)))
  }

  /** `x op y` in C++: both operands converted to the common type, the operation
      done there and wrapped if that type is unsigned. With operands of their
      types' ranges this is the mathematical value whenever the common type is
      signed, or the operands are non-negative and the value fits. */
  function Apply(op: Operator, t: IntType, x: int, u: IntType, y: int): (r: int)
    requires CanApply(op, t, x, u, y)
    ensures InRange(CommonType(t, u), r)
    ensures InRange(t, x) && InRange(u, y) && CommonType(t, u).signed ==> r == Exact(op, x, y)
    ensures InRange(t, x) && InRange(u, y) && x >= 0 && y >= 0 && InRange(CommonType(t, u), Exact(op, x, y)) ==>
      r == Exact(op, x, y)
  {
    var c := CommonType(t, u);
    ConvertOperands(t, x, u, y);
    Wrap(c, Exact(op, Wrap(c, x), Wrap(c, y)))
  }

  /** Converting operands of their types' ranges to the common type changes
      nothing, unless a negative value meets an unsigned common type. */
  lemma ConvertOperands(t: IntType, x: int, u: IntType, y: int)
    ensures var c := CommonType(t, u);
      InRange(t, x) && InRange(u, y) && (c.signed || (x >= 0 && y >= 0)) ==> Wrap(c, x) == x && Wrap(c, y) == y
  {
    var c := CommonType(t, u);
    if InRange(t, x) && InRange(u, y) && (c.signed || (x >= 0 && y >= 0)) {
      Widen(t, c, x);
      Widen(u, c, y);
    }
  }

  /** A value of `t` is a value of any type `c` at least as wide, provided `c` is
      strictly wider when it alone is signed, and the value is non-negative when `c`
      is unsigned. */
  lemma Widen(t: IntType, c: IntType, x: int)
    requires InRange(t, x) && c.bits >= t.bits
    requires c.signed && !t.signed ==> c.bits > t.bits
    requires !c.signed ==> x >= 0
    ensures InRange(c, x)
  {
    if c.signed && t.signed {
      Pow2Monotone(t.bits - 1, c.bits - 1);
    } else if c.signed {
      Pow2Monotone(t.bits, c.bits - 1);
    } else if t.signed {
      Pow2Monotone(t.bits - 1, c.bits);
    } else {
      Pow2Monotone(t.bits, c.bits);
    }
  }

  /** Two operands of one type, with the result converted back into that type:
      the result is the mathematical one reduced modulo `2^bits`. */
  lemma ApplySameType(op: Operator, t: IntType, x: int, y: int)
    requires InRange(t, x) && InRange(t, y) && CanApply(op, t, x, t, y)
    ensures Wrap(t, Apply(op, t, x, t, y)) == Wrap(t, Exact(op, x, y))
  {
    var c := CommonType(t, t);
    if !c.signed {
      assert x >= 0 && y >= 0;
    }
    ConvertOperands(t, x, t, y);
    WrapWiden(t, c, Exact(op, x, y));
  }

  /** An operation on two values of one type whose mathematical result fits that
      type is well defined and gives that result. */
  lemma FitsIsDefined(op: Operator, t: IntType, x: int, y: int)
    requires InRange(t, x) && InRange(t, y) && (op == Divide ==> y != 0)
    requires InRange(t, Exact(op, x, y))
    ensures CanApply(op, t, x, t, y)
    ensures Wrap(t, Apply(op, t, x, t, y)) == Exact(op, x, y)
  {
    var c := CommonType(t, t);
    ConvertOperands(t, x, t, y);
    Widen(t, c, Exact(op, x, y));
    ApplySameType(op, t, x, y);
  }

  /** Unary minus: promotion, then negation, wrapping if the promoted type is unsigned. */
  function Negate(t: IntType, x: int): (r: int)
    requires InRange(t, x) && Defined(Promote(t), -x)
    ensures InRange(Promote(t), r)
    ensures Promote(t).signed ==> r == -x
    ensures Wrap(t, r) == Wrap(t, -x)
  {
    WrapWiden(t, Promote(t), -x);
    Wrap(Promote(t), -x)
  }

  /** Casting to a wider type first and then to `t` is casting to `t`. */
  lemma WrapWiden(t: IntType, c: IntType, v: int)
    requires c.bits >= t.bits
    ensures Wrap(t, Wrap(c, v)) == Wrap(t, v)
  {
    Pow2Add(c.bits - t.bits, t.bits);
    NegatedMultipleOfMultiple(v - Wrap(c, v), Pow2(c.bits), Pow2(t.bits), Pow2(c.bits - t.bits));
    WrapCongruent(t, Wrap(c, v), v);
  }

  /** Casting `x + y` to `t` and then `that - y` gives back a value `x` of `t`. */
  lemma WrapSubtractAdded(t: IntType, x: int, y: int, s: int)
    requires InRange(t, x) && s == Wrap(t, x + y)
    ensures Wrap(t, s - y) == x
  {
    assert (x - (s - y)) % Pow2(t.bits) == 0 by {
      assert x - (s - y) == x + y - s;
    }
    WrapCongruent(t, x, s - y);
  }

  /** Casting `-x` to `t` and then the negation of that gives back a value `x` of `t`. */
  lemma WrapNegateNegated(t: IntType, x: int, r: int)
    requires InRange(t, x) && r == Wrap(t, -x)
    ensures Wrap(t, -r) == x
  {
    assert (x - (-r)) % Pow2(t.bits) == 0 by {
      assert x - (-r) == -(-x - r);
      NegatedMultipleOfMultiple(-x - r, Pow2(t.bits), Pow2(t.bits), 1);
    }
    WrapCongruent(t, x, -r);
  }

  /** A multiple of `f * m` is, negated, a multiple of `m`. */
  lemma NegatedMultipleOfMultiple(e: int, n: int, m: int, f: int)
    requires m > 0 && f > 0 && n == f * m && e % n == 0
    ensures (-e) % m == 0
  {
    var k := e / n;
    assert e == k * n;
    var j := -(k * f);
    assert -e == j * m by {
      ReassociateProduct(k, f, m);
      SwapFactors(m, f);
    }
    MultipleRemainder(j, m);
  }

  /** Values congruent modulo `2^bits` cast to the same value. */
  lemma WrapCongruent(t: IntType, a: int, b: int)
    requires (a - b) % Pow2(t.bits) == 0
    ensures Wrap(t, a) == Wrap(t, b)
  {
    var m := Pow2(t.bits);
    var w := Wrap(t, b);
    SumOfMultiples(a - b, b - w, m);
    WrapUnique(t, a, w);
  }

  lemma SumOfMultiples(x: int, y: int, m: int)
    requires m > 0 && x % m == 0 && y % m == 0
    ensures (x + y) % m == 0
  {
    var i, j := x / m, y / m;
    assert x == i * m && y == j * m;
    assert x + y == (i + j) * m by { Distribute(i, j, m); }
    MultipleRemainder(i + j, m);
  }
}
