/** The SI prefixes a quantity can be denominated in, and the decade arithmetic
    that reconciles them when values are rescaled, multiplied or divided. */
module Prefixes {

  datatype Prefix = Micro | Milli | One | Kilo

  /** The power of ten a prefix stands for. */
  function Exponent(p: Prefix): (e: int)
    ensures -6 <= e <= 3 && e % 3 == 0
  {
    match p
    case Micro => -6
    case Milli => -3
    case One => 0
    case Kilo => 3
  }

  /** Distinct prefixes stand for distinct powers of ten. */
  lemma ExponentInjective(a: Prefix, b: Prefix)
    ensures Exponent(a) == Exponent(b) <==> a == b
  {
  }

  /** The number of decades a raw value denominated in `source` has to be scaled by
      (multiplied by ten to this power) so that it is denominated in `target`. */
  function DecadesDiff(source: Prefix, target: Prefix): (d: int)
    ensures -9 <= d <= 9
    ensures d == 0 <==> source == target
    ensures d > 0 <==> Exponent(target) < Exponent(source)
  {
    Exponent(source) - Exponent(target)
  }

  /** Rescaling there and back cancels. */
  lemma DecadesDiffAntisymmetric(s: Prefix, t: Prefix)
    ensures DecadesDiff(s, t) == -DecadesDiff(t, s)
  {
  }

  /** Rescaling through an intermediate prefix adds up to the direct rescale. */
  lemma DecadesDiffChain(a: Prefix, b: Prefix, c: Prefix)
    ensures DecadesDiff(a, b) + DecadesDiff(b, c) == DecadesDiff(a, c)
  {
  }

  /** The worked example documented with the function. */
  lemma DecadesDiffMilliToMicro()
    ensures DecadesDiff(Milli, Micro) == 3
  {
  }

  /** The decades left over after multiplying a raw value denominated in `lhs` by one
      denominated in `rhs`, when the product is to be denominated in `target`. */
  function DimensionCorrectionFromMult(target: Prefix, lhs: Prefix, rhs: Prefix): (c: int)
    ensures -15 <= c <= 12
    ensures c == DecadesDiff(lhs, target) + Exponent(rhs)
  {
    Exponent(lhs) + Exponent(rhs) - Exponent(target)
  }

  /** The order of the two factors does not matter for the correction. */
  lemma DimensionCorrectionFromMultSymmetric(target: Prefix, lhs: Prefix, rhs: Prefix)
    ensures DimensionCorrectionFromMult(target, lhs, rhs) == DimensionCorrectionFromMult(target, rhs, lhs)
  {
  }

  /** U = I * R with I in micro, R in milli and U in milli. */
  lemma DimensionCorrectionFromMultExample()
    ensures DimensionCorrectionFromMult(Milli, Micro, Milli) == -6
  {
  }

  /** The decades left over after dividing a raw value denominated in `lhs` by one
      denominated in `rhs`, when the quotient is to be denominated in `target`. */
  function DimensionCorrectionFromDiv(target: Prefix, lhs: Prefix, rhs: Prefix): (c: int)
    ensures -12 <= c <= 15
    ensures c == DecadesDiff(lhs, target) - Exponent(rhs)
  {
    Exponent(lhs) - Exponent(rhs) - Exponent(target)
  }

  /** I = U / R with U in milli, R in milli and I in micro. */
  lemma DimensionCorrectionFromDivExample()
    ensures DimensionCorrectionFromDiv(Micro, Milli, Milli) == 6
  {
  }

  /** Dividing by a factor undoes multiplying by it: the two corrections cancel. */
  lemma DimensionCorrectionsCancel(target: Prefix, lhs: Prefix, rhs: Prefix)
    ensures DimensionCorrectionFromMult(target, lhs, rhs) + DimensionCorrectionFromDiv(lhs, target, rhs) == 0
  {
  }

  /** The finer (smaller) of two prefixes; on a tie the second. */
  function FinerResolution(a: Prefix, b: Prefix): (p: Prefix)
    ensures p == a || p == b
    ensures Exponent(p) <= Exponent(a) && Exponent(p) <= Exponent(b)
    ensures Exponent(a) == Exponent(b) ==> p == b
  {
    if Exponent(a) < Exponent(b) then a else b
  }
}
