/** Fixed-width C++ integer types as the library sees them: a width in bits and a
    signedness, the range `std::numeric_limits` gives them, and the C++ integer
    division `/`, which truncates toward zero (Dafny's `/` is Euclidean). */
module Integers {

  type Bits = n: nat | 1 <= n witness 8

  /** A fixed-width integer storage type such as `std::int16_t`. */
  datatype IntType = IntType(bits: Bits, signed: bool)

  const Int8 := IntType(8, true)
  const Int16 := IntType(16, true)
  const Int32 := IntType(32, true)
  const Int64 := IntType(64, true)
  /** `unsigned long long`, the parameter type of a user-defined literal operator. */
  const UInt64 := IntType(64, false)

  function Pow2(n: nat): (r: nat)
    ensures r >= 1
  {
    if n == 0 then 1 else 2 * Pow2(n - 1)
  }

  lemma {:induction false} Pow2Add(a: nat, b: nat)
    ensures Pow2(a + b) == Pow2(a) * Pow2(b)
  {
    if a > 0 {
      Pow2Add(a - 1, b);
      assert Pow2(a + b) == 2 * Pow2(a - 1 + b);
    }
  }

  lemma Pow2Monotone(a: nat, b: nat)
    requires a <= b
    ensures Pow2(a) <= Pow2(b)
  {
    Pow2Add(a, b - a);
    assert Pow2(b) == Pow2(a) * Pow2(b - a);
  }

  /** The powers of two behind the ranges of the 8- to 64-bit types. */
  lemma Pow2Values()
    ensures Pow2(7) == 0x80 && Pow2(8) == 0x100
    ensures Pow2(15) == 0x8000 && Pow2(16) == 0x1_0000
    ensures Pow2(31) == 0x8000_0000 && Pow2(32) == 0x1_0000_0000
    ensures Pow2(63) == 0x8000_0000_0000_0000 && Pow2(64) == 0x1_0000_0000_0000_0000
  {
    assert Pow2(4) == 16;
    Pow2Add(4, 3);
    Pow2Add(4, 4);
    Pow2Add(8, 7);
    Pow2Add(8, 8);
    Pow2Add(16, 15);
    Pow2Add(16, 16);
    Pow2Add(32, 31);
    Pow2Add(32, 32);
  }

  /** `std::numeric_limits<T>::min()` */
  function MinValue(t: IntType): (r: int)
    ensures r <= 0 && (t.signed ==> r < 0) && (!t.signed ==> r == 0)
    ensures t == Int8 ==> r == -0x80
    ensures t == Int16 ==> r == -0x8000
    ensures t == Int32 ==> r == -0x8000_0000
    ensures t == Int64 ==> r == -0x8000_0000_0000_0000
  {
    Pow2Values();
    if t.signed then -(Pow2(t.bits - 1) as int) else 0
  }

  /** `std::numeric_limits<T>::max()` */
  function MaxValue(t: IntType): (r: int)
    ensures r >= 0
    ensures t == Int8 ==> r == 0x7F
    ensures t == Int16 ==> r == 0x7FFF
    ensures t == Int32 ==> r == 0x7FFF_FFFF
    ensures t == Int64 ==> r == 0x7FFF_FFFF_FFFF_FFFF
    ensures t == UInt64 ==> r == 0xFFFF_FFFF_FFFF_FFFF
  {
    Pow2Values();
    if t.signed then Pow2(t.bits - 1) - 1 else Pow2(t.bits) - 1
  }

  /** `v` is representable in `t`, so storing it into a `t` loses nothing. */
  predicate InRange(t: IntType, v: int)
  {
    MinValue(t) <= v <= MaxValue(t)
  }

  /** `static_cast<T>(v)` from a wider integer: `v` reduced modulo `2^bits` into the
      range of `t` (two's complement, as C++20 defines it). */
  function Wrap(t: IntType, v: int): (w: int)
    ensures InRange(t, w)
    ensures InRange(t, v) ==> w == v
    ensures (v - w) % Pow2(t.bits) == 0
  {
    var m := Pow2(t.bits);
    var low := MinValue(t);
    assert m == 2 * Pow2(t.bits - 1);
    var k := (v - low) / m;
    var w := (v - low) % m + low;
    assert v - w == k * m;
    MultipleRemainder(k, m);
    SmallRemainder(v - low, m);
    w
  }

  /** The wrapped value is the one value of the range congruent to `v`. */
  lemma WrapUnique(t: IntType, v: int, w: int)
    requires InRange(t, w) && (v - w) % Pow2(t.bits) == 0
    ensures Wrap(t, v) == w
  {
    var m := Pow2(t.bits);
    var u := Wrap(t, v);
    assert m == 2 * Pow2(t.bits - 1);
    CongruentClose(v, w, u, m);
  }

  /** Two values congruent to `v` modulo `m` and less than `m` apart are equal. */
  lemma CongruentClose(v: int, w: int, u: int, m: int)
    requires m > 0 && (v - w) % m == 0 && (v - u) % m == 0
    requires -m < u - w < m
    ensures u == w
  {
    var a, b := (v - w) / m, (v - u) / m;
    assert v - w == a * m && v - u == b * m;
    assert u - w == (a - b) * m by { Distribute(a, -b, m); }
    SmallMultiple(a - b, m);
  }

  /** The only multiple of `m` strictly between `-m` and `m` is zero. */
  lemma SmallMultiple(k: int, m: int)
    requires m > 0 && -m < k * m < m
    ensures k == 0
  {
    if k >= 1 {
      MulMonotone(1, k, m);
    } else if k <= -1 {
      MulMonotone(k, -1, m);
    }
  }

  /** Casting ignores whole multiples of `2^bits`. */
  lemma WrapPeriodic(t: IntType, v: int, k: int)
    ensures Wrap(t, v + k * Pow2(t.bits)) == Wrap(t, v)
  {
    var m := Pow2(t.bits);
    var w := Wrap(t, v);
    ShiftedCongruence(v, w, k, m);
    WrapUnique(t, v + k * m, w);
  }

  /** Adding `k` multiples of `m` keeps a value congruent to `w`. */
  lemma ShiftedCongruence(v: int, w: int, k: int, m: int)
    requires m > 0 && (v - w) % m == 0
    ensures (v + k * m - w) % m == 0
  {
    var j := (v - w) / m;
    assert v - w == j * m;
    assert v + k * m - w == (j + k) * m by { Distribute(j, k, m); }
    MultipleRemainder(j + k, m);
  }

  lemma MultipleRemainder(k: int, m: int)
    requires m > 0
    ensures (k * m) % m == 0
  {
    var q, r := (k * m) / m, (k * m) % m;
    assert k * m == q * m + r && 0 <= r < m;
    if r != 0 {
      assert r == (k - q) * m;
      if k - q >= 1 {
        MulMonotone(1, k - q, m);
      } else {
        MulMonotone(k - q, -1, m);
      }
    }
  }

  lemma SmallRemainder(x: int, m: int)
    requires m > 0
    ensures 0 <= x < m ==> x % m == x
  {
  }

  function Abs(x: int): nat
  {
    if x < 0 then -x else x
  }

  /** `approx` lies between zero and `exact` (inclusive) and is less than `step` away
      from `exact`: what is left of `exact` after cutting it toward zero to a grid of
      width `step`. */
  predicate TowardZeroWithin(exact: int, approx: int, step: int)
  {
    && (if exact >= 0 then 0 <= approx <= exact else exact <= approx <= 0)
    && exact - approx < step
    && approx - exact < step
  }

  /** C++ `a / b` on integers: the quotient truncated toward zero. */
  function TruncDiv(a: int, b: int): (q: int)
    requires b != 0
    ensures TowardZeroWithin(a, q * b, Abs(b))
    ensures Abs(q) <= Abs(a)
  {
    var n, d := Abs(a), Abs(b);
    var k := n / d;
    var q := if (a < 0) == (b < 0) then k else -k;
    assert 0 <= k * d <= n < k * d + d && k <= n by {
      EuclideanOnNaturals(n, d);
    }
    assert q * b == (if a < 0 then -(k * d) else k * d) by {
      SignedProduct(k, b, (a < 0) != (b < 0));
    }
    q
  }

  /** On naturals Dafny's `/` already truncates toward zero. */
  lemma EuclideanOnNaturals(n: nat, d: nat)
    requires d > 0
    ensures 0 <= (n / d) * d <= n < (n / d) * d + d
    ensures n / d <= n
  {
    var q, r := n / d, n % d;
    assert n == q * d + r && 0 <= r < d;
    MulNonNegative(q, d - 1);
    assert q * d == q * (d - 1) + q;
  }

  /** The sign of a product of `k` (possibly negated) and `b`, in terms of `k * |b|`. */
  lemma SignedProduct(k: int, b: int, negate: bool)
    ensures (if negate then -k else k) * b == (if negate != (b < 0) then -(k * Abs(b)) else k * Abs(b))
  {
    if b < 0 {
      assert k * b == -(k * -b);
    }
    if negate {
      assert (-k) * b == -(k * b);
    }
  }

  /** A quotient is determined by the truncation property, so any `q` with it is `a / b`. */
  lemma TruncDivUnique(a: int, b: int, q: int)
    requires b != 0
    requires TowardZeroWithin(a, q * b, Abs(b))
    ensures q == TruncDiv(a, b)
  {
    var p := TruncDiv(a, b);
    if q != p {
      MultipleGap(q, p, b);
    }
  }

  /** Two different multiples of `b` are at least `|b|` apart. */
  lemma MultipleGap(q: int, p: int, b: int)
    requires b != 0 && q != p
    ensures Abs(q * b - p * b) >= Abs(b)
  {
    var d := q - p;
    assert q * b - p * b == d * b;
    if d > 0 {
      if b > 0 { assert d * b >= b; } else { assert d * b <= b; }
    } else {
      if b > 0 { assert d * b <= -b; } else { assert d * b >= -b; }
    }
  }

  /** Dividing an exact multiple gives the factor back. */
  lemma TruncDivExact(v: int, m: int)
    requires m != 0
    ensures TruncDiv(v * m, m) == v
  {
    TruncDivUnique(v * m, m, v);
  }

  /** Truncating division is odd in its dividend. */
  lemma TruncDivNegateDividend(a: int, b: int)
    requires b != 0
    ensures TruncDiv(-a, b) == -TruncDiv(a, b)
  {
    var q := TruncDiv(a, b);
    NegateLeft(q, b);
    assert TowardZeroWithin(-a, (-q) * b, Abs(b));
    TruncDivUnique(-a, b, -q);
  }

  /** Truncating division is odd in its divisor. */
  lemma TruncDivNegateDivisor(a: int, b: int)
    requires b != 0
    ensures TruncDiv(a, -b) == -TruncDiv(a, b)
  {
    var q := TruncDiv(a, b);
    NegateLeft(q, -b);
    NegateRight(q, b);
    assert Abs(-b) == Abs(b);
    assert TowardZeroWithin(a, (-q) * (-b), Abs(-b));
    TruncDivUnique(a, -b, -q);
  }

  /** Truncating twice, by positive `m` and then by `r`, is truncating once by `m * r`. */
  lemma TruncDivNested(a: int, m: int, r: int)
    requires m > 0 && r != 0
    ensures TruncDiv(TruncDiv(a, m), r) == TruncDiv(a, m * r)
  {
    if a < 0 {
      TruncDivNestedAnyDivisor(-a, m, r);
      TruncDivNegateDividend(a, m);
      TruncDivNegateDividend(TruncDiv(a, m), r);
      TruncDivNegateDividend(a, m * r);
    } else {
      TruncDivNestedAnyDivisor(a, m, r);
    }
  }

  lemma TruncDivNestedAnyDivisor(a: int, m: int, r: int)
    requires a >= 0 && m > 0 && r != 0
    ensures TruncDiv(TruncDiv(a, m), r) == TruncDiv(a, m * r)
  {
    if r < 0 {
      var s, ms := -r, m * -r;
      assert m * r == -ms;
      assert TruncDiv(TruncDiv(a, m), s) == TruncDiv(a, ms) by {
        TruncDivNestedNonNegative(a, m, s);
      }
      assert TruncDiv(TruncDiv(a, m), r) == -TruncDiv(TruncDiv(a, m), s) by {
        TruncDivNegateDivisor(TruncDiv(a, m), s);
      }
      assert TruncDiv(a, -ms) == -TruncDiv(a, ms) by {
        TruncDivNegateDivisor(a, ms);
      }
    } else {
      TruncDivNestedNonNegative(a, m, r);
    }
  }

  lemma TruncDivNestedNonNegative(a: int, m: int, r: int)
    requires a >= 0 && m > 0 && r > 0
    ensures TruncDiv(TruncDiv(a, m), r) == TruncDiv(a, m * r)
  {
    var q1 := TruncDiv(a, m);
    var q2 := TruncDiv(q1, r);
    var p2 := q2 * r;
    var s1, s2 := a - q1 * m, q1 - p2;
    assert 0 <= s1 < m;
    assert 0 <= p2 && 0 <= s2 < r;
    NestedRemainderBound(s1, s2, m, r);
    ReassociateProduct(q2, r, m);
    assert q1 * m == p2 * m + s2 * m by { Distribute(p2, s2, m); }
    MulNonNegative(p2, m);
    assert TowardZeroWithin(a, q2 * (m * r), Abs(m * r));
    TruncDivUnique(a, m * r, q2);
  }

  lemma NestedRemainderBound(s1: int, s2: int, m: int, r: int)
    requires 0 <= s1 < m && 0 <= s2 < r
    ensures 0 <= s2 * m + s1 < m * r
  {
    MulNonNegative(s2, m);
    MulMonotone(s2, r - 1, m);
    Distribute(r - 1, 1, m);
    assert r * m == m * r;
  }

  lemma NegateLeft(x: int, y: int)
    ensures (-x) * y == -(x * y)
  {
  }

  lemma NegateRight(x: int, y: int)
    ensures x * (-y) == -(x * y)
  {
  }

  lemma Rearrange(x: int, a: int, y: int, b: int)
    ensures (x * a) * (y * b) == (x * y) * (a * b)
  {
  }

  lemma SwapFactors(x: int, y: int)
    ensures x * y == y * x
  {
  }

  lemma ScaledUp(p: int, r: int, m: int, k: int, n: int)
    requires r == p * m && m * k == n
    ensures r * k == p * n
  {
    ReassociateProduct(p, m, k);
  }

  lemma ScaledDown(p: int, r: int, m: int, k: int, n: int)
    requires k > 0 && m * k == n
    requires TowardZeroWithin(p, r * m, m)
    ensures TowardZeroWithin(p * k, r * n, n)
  {
    ScaleTowardZero(p, r * m, m, k);
    ReassociateProduct(r, m, k);
    assert k * m == m * k;
  }

  lemma ReassociateProduct(q: int, r: int, m: int)
    ensures (q * r) * m == q * (m * r)
  {
  }

  lemma Distribute(x: int, y: int, m: int)
    ensures (x + y) * m == x * m + y * m
  {
  }

  lemma MulMonotone(x: int, y: int, m: nat)
    requires x <= y
    ensures x * m <= y * m
  {
    MulNonNegative(y - x, m);
    assert y * m - x * m == (y - x) * m;
  }

  lemma MulNonNegative(x: int, y: int)
    requires x >= 0 && y >= 0
    ensures x * y >= 0
  {
  }

  /** Scaling both sides and the step by a positive factor keeps a toward-zero cut. */
  lemma ScaleTowardZero(exact: int, approx: int, step: int, m: int)
    requires m > 0
    requires TowardZeroWithin(exact, approx, step)
    ensures TowardZeroWithin(exact * m, approx * m, step * m)
  {
    if exact >= 0 {
      MulMonotone(0, approx, m);
      MulMonotone(approx, exact, m);
    } else {
      MulMonotone(exact, approx, m);
      MulMonotone(approx, 0, m);
    }
    MulMonotone(exact - approx + 1, step, m);
    MulMonotone(approx - exact + 1, step, m);
    Distribute(exact - approx, 1, m);
    Distribute(approx - exact, 1, m);
    Distribute(exact, -approx, m);
    Distribute(approx, -exact, m);
  }
}
