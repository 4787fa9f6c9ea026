/** An ordered registry of integer storage types, narrowest first, used to pick a
    wider intermediate type for products and quotients. The source resolves every
    lookup at compile time; a lookup that would not compile is a precondition here. */
module ValueSystems {
  import opened Integers

  /** `ValueSystem<Ts...>`: the types in the order they are listed. */
  type ValueSystem = seq<IntType>

  /** The requirements the registry documents: every entry has at least double the
      bits of its predecessor, and all entries share one signedness. */
  predicate WellOrdered(sys: ValueSystem)
  {
    && (forall i :: 0 <= i < |sys| - 1 ==> 2 * sys[i].bits <= sys[i + 1].bits)
    && (forall i :: 0 <= i < |sys| ==> sys[i].signed == sys[0].signed)
  }

  function HasElement(sys: ValueSystem, t: IntType): (b: bool)
    ensures b <==> t in sys
  {
    if |sys| == 0 then false else sys[0] == t || HasElement(sys[1..], t)
  }

  function Count(sys: ValueSystem): (n: nat)
    ensures n == |sys|
  {
    if |sys| == 0 then 0 else 1 + Count(sys[1..])
  }

  /** The index of the first occurrence of `t`; absence does not compile. */
  function PositionOf(sys: ValueSystem, t: IntType): (i: nat)
    requires t in sys
    ensures i < |sys| && sys[i] == t
    ensures t !in sys[..i]
  {
    if sys[0] == t then 0 else 1 + PositionOf(sys[1..], t)
  }

  /** The later of the positions of two listed types. */
  function LargerPositionOf(sys: ValueSystem, t1: IntType, t2: IntType): (i: nat)
    requires t1 in sys && t2 in sys
    ensures i == PositionOf(sys, t1) || i == PositionOf(sys, t2)
    ensures PositionOf(sys, t1) <= i && PositionOf(sys, t2) <= i
  {
    var p1, p2 := PositionOf(sys, t1), PositionOf(sys, t2);
    if p1 >= p2 then p1 else p2
  }

  lemma LargerPositionOfSymmetric(sys: ValueSystem, t1: IntType, t2: IntType)
    requires t1 in sys && t2 in sys
    ensures LargerPositionOf(sys, t1, t2) == LargerPositionOf(sys, t2, t1)
  {
  }

  /** The type at `index`; an index past the end does not compile. */
  function Element(sys: ValueSystem, index: nat): (t: IntType)
    requires index < |sys|
    ensures t == sys[index]
  {
    if index == 0 then sys[0] else Element(sys[1..], index - 1)
  }

  /** Looking up the position of a type gives the type back. */
  lemma ElementOfPosition(sys: ValueSystem, t: IntType)
    requires t in sys
    ensures Element(sys, PositionOf(sys, t)) == t
  {
  }

  /** The type a product of a `lhs` and an `rhs` value is computed in: the entry
      right after the later of the two. */
  function MultiplicationResultHelper(sys: ValueSystem, lhs: IntType, rhs: IntType): (t: IntType)
    requires lhs in sys && rhs in sys
    requires LargerPositionOf(sys, lhs, rhs) + 1 < |sys|
    ensures t in sys
  {
    Element(sys, LargerPositionOf(sys, lhs, rhs) + 1)
  }

  /** The entry right after `t`. */
  function LargerType(sys: ValueSystem, t: IntType): (w: IntType)
    requires t in sys
    requires PositionOf(sys, t) + 1 < |sys|
    ensures w in sys
  {
    Element(sys, PositionOf(sys, t) + 1)
  }

  /** In a well-ordered registry a later entry has at least double the bits. */
  lemma {:induction false} WellOrderedAscending(sys: ValueSystem, i: nat, j: nat)
    requires WellOrdered(sys)
    requires i < j < |sys|
    ensures 2 * sys[i].bits <= sys[j].bits
    decreases j - i
  {
    if j > i + 1 {
      WellOrderedAscending(sys, i, j - 1);
      assert 2 * sys[j - 1].bits <= sys[j].bits;
    }
  }

  /** A well-ordered registry has no repeated entry, so every entry sits at its own position. */
  lemma WellOrderedPositions(sys: ValueSystem, i: nat)
    requires WellOrdered(sys)
    requires i < |sys|
    ensures PositionOf(sys, sys[i]) == i
  {
    var p := PositionOf(sys, sys[i]);
    if p < i {
      WellOrderedAscending(sys, p, i);
    }
  }

  /** The type selected for `LargerType(t)` is at least twice as wide as `t`, with the same signedness. */
  lemma LargerTypeWider(sys: ValueSystem, t: IntType)
    requires WellOrdered(sys)
    requires t in sys && PositionOf(sys, t) + 1 < |sys|
    ensures LargerType(sys, t).bits >= 2 * t.bits
    ensures LargerType(sys, t).signed == t.signed
  {
    var p := PositionOf(sys, t);
    WellOrderedAscending(sys, p, p + 1);
  }

  /** The product type has at least as many bits as both factors together. */
  lemma MultiplicationResultWider(sys: ValueSystem, lhs: IntType, rhs: IntType)
    requires WellOrdered(sys)
    requires lhs in sys && rhs in sys
    requires LargerPositionOf(sys, lhs, rhs) + 1 < |sys|
    ensures MultiplicationResultHelper(sys, lhs, rhs).bits >= lhs.bits + rhs.bits
    ensures MultiplicationResultHelper(sys, lhs, rhs).signed == lhs.signed == rhs.signed
  {
    var k := LargerPositionOf(sys, lhs, rhs) + 1;
    WellOrderedAscending(sys, PositionOf(sys, lhs), k);
    WellOrderedAscending(sys, PositionOf(sys, rhs), k);
  }

  /** Because the product type is wide enough, the product of any two values of
      the operand types is representable in it. */
  lemma MultiplicationResultFits(sys: ValueSystem, lhs: IntType, rhs: IntType, x: int, y: int)
    requires WellOrdered(sys)
    requires lhs in sys && rhs in sys
    requires LargerPositionOf(sys, lhs, rhs) + 1 < |sys|
    requires InRange(lhs, x) && InRange(rhs, y)
    ensures InRange(MultiplicationResultHelper(sys, lhs, rhs), x * y)
  {
    var w := MultiplicationResultHelper(sys, lhs, rhs);
    MultiplicationResultWider(sys, lhs, rhs);
    ProductFits(lhs, rhs, w, x, y);
  }

  lemma ProductFits(lhs: IntType, rhs: IntType, w: IntType, x: int, y: int)
    requires w.bits >= lhs.bits + rhs.bits
    requires w.signed == lhs.signed == rhs.signed
    requires InRange(lhs, x) && InRange(rhs, y)
    ensures InRange(w, x * y)
  {
    var a: nat, b: nat := lhs.bits, rhs.bits;
    if w.signed {
      // |x * y| <= 2^(a-1) * 2^(b-1) = 2^(a+b-2) <= 2^(w-2)
      AbsMul(x, y);
      MulBound(Abs(x), Pow2(a - 1), Abs(y), Pow2(b - 1));
      Pow2Add(a - 1, b - 1);
      Pow2Monotone(a + b - 2, w.bits - 2);
      assert Pow2(w.bits - 1) == 2 * Pow2(w.bits - 2);
    } else {
      // x * y <= (2^a - 1) * (2^b - 1) < 2^(a+b) <= 2^w
      MulBound(x, Pow2(a) - 1, y, Pow2(b) - 1);
      assert (Pow2(a) - 1) * (Pow2(b) - 1) == Pow2(a) * Pow2(b) - Pow2(a) - Pow2(b) + 1;
      Pow2Add(a, b);
      Pow2Monotone(a + b, w.bits);
      MulNonNegative(x, y);
    }
  }

  lemma AbsMul(x: int, y: int)
    ensures Abs(x * y) == Abs(x) * Abs(y)
  {
    if x < 0 && y < 0 {
      assert x * y == (-x) * (-y);
    } else if x < 0 {
      assert x * y == -((-x) * y);
      MulNonNegative(-x, y);
    } else if y < 0 {
      assert x * y == -(x * (-y));
      MulNonNegative(x, -y);
    } else {
      MulNonNegative(x, y);
    }
  }

  lemma MulBound(x: nat, xMax: nat, y: nat, yMax: nat)
    requires x <= xMax && y <= yMax
    ensures x * y <= xMax * yMax
  {
    MulMonotone(x, xMax, y);
    MulMonotone(y, yMax, xMax);
  }
}
