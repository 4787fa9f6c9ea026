/** The conversion tests of the integral example units, as lemmas over all
    values of the kind each test picks: whenever Ohm's law holds exactly between
    the numbers written in the literals, and every literal's raw value fits 32
    bits, the library's conversion gives exactly the literal on the other side.
    Each test is the instance noted in the lemma's comment. */
module ExampleConversionTest {
  import opened Integers
  import opened Units
  import opened AmpereUnits
  import opened VoltUnits
  import opened OhmUnits
  import opened Conversions

  /** A literal argument whose scaled raw value fits 32 bits survives the casts
      to 64 and 32 bits unchanged. */
  lemma LiteralKept(n: nat, scale: nat)
    requires 1 <= scale && n * scale <= MaxValue(Int32)
    ensures InRange(UInt64, n) && Wrap(Int32, n) == n
    ensures InRange(Int32, Wrap(Int32, n) * scale)
  {
  }

  /** `v_mV / r_Ohm == i_uA` when `v * 1000 == i * r`; the test is `1_mV / 2_Ohm == 500_uA`. */
  lemma MilliVoltsOverOhmsAreMicroAmperes(v: nat, r: nat, i: nat)
    requires v <= MaxValue(Int32) && i <= MaxValue(Int32)
    requires 0 < r && r * 1_000 <= MaxValue(Int32)
    requires v * 1_000 == i * r
    ensures InRange(Int32, Wrap(Int32, r) * 1_000)
    ensures Eq(VoltDivOhm(mV(v), Ohms(r)), uA(i))
  {
    LiteralKept(r, 1_000);
    var lhs, rhs := mV(v), Ohms(r);
    assert lhs.raw * 1_000_000 == i * rhs.raw by {
      Rearrange(i, 1, r, 1_000);
    }
    TruncDivExact(i, rhs.raw);
  }

  /** `v_V / r_Ohm == i_A` when `v == i * r`; the test is `4_V / 2_Ohm == 2_A`. */
  lemma VoltsOverOhmsAreAmperes(v: nat, r: nat, i: nat)
    requires v * 1_000 <= MaxValue(Int32) && i * 1_000_000 <= MaxValue(Int32)
    requires 0 < r && r * 1_000 <= MaxValue(Int32)
    requires v == i * r
    ensures InRange(Int32, Wrap(Int32, v) * 1_000) && InRange(Int32, Wrap(Int32, r) * 1_000)
    ensures InRange(Int32, Wrap(Int32, i) * 1_000_000)
    ensures Eq(VoltDivOhm(V(v), Ohms(r)), A(i))
  {
    LiteralKept(v, 1_000);
    LiteralKept(r, 1_000);
    LiteralKept(i, 1_000_000);
    var lhs, rhs := V(v), Ohms(r);
    assert lhs.raw * 1_000_000 == (i * 1_000_000) * rhs.raw by {
      Rearrange(i, 1_000_000, r, 1_000);
    }
    TruncDivExact(i * 1_000_000, rhs.raw);
  }

  /** `v_mV / r_mOhm == i_A` when `v == i * r`; the test is `4_mV / 2_mOhm == 2_A`. */
  lemma MilliVoltsOverMilliOhmsAreAmperes(v: nat, r: nat, i: nat)
    requires v <= MaxValue(Int32) && i * 1_000_000 <= MaxValue(Int32)
    requires 0 < r <= MaxValue(Int32)
    requires v == i * r
    ensures InRange(Int32, Wrap(Int32, i) * 1_000_000)
    ensures Eq(VoltDivOhm(mV(v), mOhm(r)), A(i))
  {
    LiteralKept(i, 1_000_000);
    var lhs, rhs := mV(v), mOhm(r);
    assert lhs.raw * 1_000_000 == (i * 1_000_000) * rhs.raw by {
      Rearrange(i, 1_000_000, r, 1);
    }
    TruncDivExact(i * 1_000_000, rhs.raw);
  }

  /** `v_mV / r_Ohm == i_mA` when `v == i * r`; the test is `4_mV / 2_Ohm == 2_mA`. */
  lemma MilliVoltsOverOhmsAreMilliAmperes(v: nat, r: nat, i: nat)
    requires v <= MaxValue(Int32) && i * 1_000 <= MaxValue(Int32)
    requires 0 < r && r * 1_000 <= MaxValue(Int32)
    requires v == i * r
    ensures InRange(Int32, Wrap(Int32, r) * 1_000) && InRange(Int32, Wrap(Int32, i) * 1_000)
    ensures Eq(VoltDivOhm(mV(v), Ohms(r)), mA(i))
  {
    LiteralKept(r, 1_000);
    LiteralKept(i, 1_000);
    var lhs, rhs := mV(v), Ohms(r);
    assert lhs.raw * 1_000_000 == (i * 1_000) * rhs.raw by {
      Rearrange(i, 1_000, r, 1_000);
    }
    TruncDivExact(i * 1_000, rhs.raw);
  }

  /** `v_V / r_Ohm == i_mA` when `v * 1000 == i * r`; the test is `4_V / 200_Ohm == 20_mA`. */
  lemma VoltsOverOhmsAreMilliAmperes(v: nat, r: nat, i: nat)
    requires v * 1_000 <= MaxValue(Int32) && i * 1_000 <= MaxValue(Int32)
    requires 0 < r && r * 1_000 <= MaxValue(Int32)
    requires v * 1_000 == i * r
    ensures InRange(Int32, Wrap(Int32, v) * 1_000) && InRange(Int32, Wrap(Int32, r) * 1_000)
    ensures InRange(Int32, Wrap(Int32, i) * 1_000)
    ensures Eq(VoltDivOhm(V(v), Ohms(r)), mA(i))
  {
    LiteralKept(v, 1_000);
    LiteralKept(r, 1_000);
    LiteralKept(i, 1_000);
    var lhs, rhs := V(v), Ohms(r);
    assert lhs.raw * 1_000_000 == (i * 1_000) * rhs.raw by {
      Rearrange(i, 1_000, r, 1_000);
    }
    TruncDivExact(i * 1_000, rhs.raw);
  }

  /** `v_V == i_A * r_Ohm` when `v == i * r`; the tests are `1_V == 1_A * 1_Ohm`,
      `2_V == 2_A * 1_Ohm` and `2_V == 1_A * 2_Ohm`. */
  lemma AmperesTimesOhmsAreVolts(v: nat, i: nat, r: nat)
    requires v * 1_000 <= MaxValue(Int32) && i * 1_000_000 <= MaxValue(Int32)
    requires r * 1_000 <= MaxValue(Int32)
    requires v == i * r
    ensures InRange(Int32, Wrap(Int32, v) * 1_000) && InRange(Int32, Wrap(Int32, i) * 1_000_000)
    ensures InRange(Int32, Wrap(Int32, r) * 1_000)
    ensures Eq(V(v), AmpereTimesOhm(A(i), Ohms(r)))
  {
    LiteralKept(v, 1_000);
    LiteralKept(i, 1_000_000);
    LiteralKept(r, 1_000);
    var lhs, rhs := A(i), Ohms(r);
    assert lhs.raw * rhs.raw == (v * 1_000) * 1_000_000 by {
      Rearrange(i, 1_000_000, r, 1_000);
    }
    TruncDivExact(v * 1_000, 1_000_000);
  }

  /** `v_mV == i_mA * r_Ohm` when `v == i * r`; the test is `1_mV == 1_mA * 1_Ohm`. */
  lemma MilliAmperesTimesOhmsAreMilliVolts(v: nat, i: nat, r: nat)
    requires v <= MaxValue(Int32) && i * 1_000 <= MaxValue(Int32)
    requires r * 1_000 <= MaxValue(Int32)
    requires v == i * r
    ensures InRange(Int32, Wrap(Int32, i) * 1_000) && InRange(Int32, Wrap(Int32, r) * 1_000)
    ensures Eq(mV(v), AmpereTimesOhm(mA(i), Ohms(r)))
  {
    LiteralKept(i, 1_000);
    LiteralKept(r, 1_000);
    var lhs, rhs := mA(i), Ohms(r);
    assert lhs.raw * rhs.raw == v * 1_000_000 by {
      Rearrange(i, 1_000, r, 1_000);
    }
    TruncDivExact(v, 1_000_000);
  }

  /** `v_mV == i_A * r_mOhm` when `v == i * r`; the test is `1_mV == 1_A * 1_mOhm`. */
  lemma AmperesTimesMilliOhmsAreMilliVolts(v: nat, i: nat, r: nat)
    requires v <= MaxValue(Int32) && i * 1_000_000 <= MaxValue(Int32)
    requires r <= MaxValue(Int32)
    requires v == i * r
    ensures InRange(Int32, Wrap(Int32, i) * 1_000_000)
    ensures Eq(mV(v), AmpereTimesOhm(A(i), mOhm(r)))
  {
    LiteralKept(i, 1_000_000);
    var lhs, rhs := A(i), mOhm(r);
    assert lhs.raw * rhs.raw == v * 1_000_000 by {
      Rearrange(i, 1_000_000, r, 1);
    }
    TruncDivExact(v, 1_000_000);
  }

  /** `v_mV == i_uA * r_kOhm` when `v == i * r`; the test is `10_mV == 1_uA * 10_kOhm`. */
  lemma MicroAmperesTimesKiloOhmsAreMilliVolts(v: nat, i: nat, r: nat)
    requires v <= MaxValue(Int32) && i <= MaxValue(Int32)
    requires r * 1_000_000 <= MaxValue(Int32)
    requires v == i * r
    ensures InRange(Int32, Wrap(Int32, r) * 1_000_000)
    ensures Eq(mV(v), AmpereTimesOhm(uA(i), kOhm(r)))
  {
    LiteralKept(r, 1_000_000);
    var lhs, rhs := uA(i), kOhm(r);
    assert lhs.raw * rhs.raw == v * 1_000_000 by {
      Rearrange(i, 1, r, 1_000_000);
    }
    TruncDivExact(v, 1_000_000);
  }
}
