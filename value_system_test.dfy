/** The compile-time checks on small value systems, as lemmas. */
module ValueSystemTest {
  import opened Integers
  import opened ValueSystems

  const Sys0: ValueSystem := []
  const Sys1: ValueSystem := [Int8]
  const Sys2: ValueSystem := [Int8, Int16]
  const Sys4: ValueSystem := [Int8, Int16, Int32, Int64]

  lemma MembershipChecks()
    ensures !HasElement(Sys0, Int8)
    ensures HasElement(Sys1, Int8) && !HasElement(Sys1, Int16)
    ensures HasElement(Sys2, Int8) && HasElement(Sys2, Int16) && !HasElement(Sys2, Int32)
  {
  }

  lemma PositionChecks()
    ensures PositionOf(Sys2, Int8) == 0 && PositionOf(Sys2, Int16) == 1
    ensures Element(Sys1, 0) == Int8
    ensures Element(Sys2, 1) == Int16 && Element(Sys2, 0) != Int16
  {
  }

  lemma MultiplicationResultChecks()
    ensures MultiplicationResultHelper(Sys4, Int8, Int8) == Int16
    ensures MultiplicationResultHelper(Sys4, Int16, Int8) == Int32
    ensures MultiplicationResultHelper(Sys4, Int8, Int16) == Int32
    ensures MultiplicationResultHelper(Sys4, Int32, Int16) == Int64
  {
  }
}
