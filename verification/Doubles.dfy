/** Doubles without rounding: the finite ones are reals, and the values that a
    division by zero or a text such as "nan" produces stay apart. */
module Doubles {
  datatype Double = Finite(v: real) | PosInf | NegInf | NaN

  /** C++ division of two finite doubles, the second never a negative zero. */
  function Quotient(x: real, y: real): Double {
    if y != 0.0 then Finite(x / y)
    else if x > 0.0 then PosInf
    else if x < 0.0 then NegInf
    else NaN
  }

  /** The comparisons of IEEE 754: NaN is unordered and unequal to all. */
  predicate Less(a: Double, b: Double) {
    match (a, b)
    case (NaN, _) => false
    case (_, NaN) => false
    case (Finite(x), Finite(y)) => x < y
    case (NegInf, _) => b != NegInf
    case (_, PosInf) => a != PosInf
    case _ => false
  }

  predicate Equal(a: Double, b: Double) {
    a == b && a != NaN
  }

  predicate LessEqual(a: Double, b: Double) {
    Less(a, b) || Equal(a, b)
  }

  /** The value of `static_cast<int>`: truncation toward zero. */
  function Truncate(x: real): int {
    if x >= 0.0 then x.Floor else -(-x).Floor
  }

  // ----- what division, comparison and truncation mean -----

  /** A quotient by a nonzero divisor is undone by multiplying; division by zero
      keeps the sign of the dividend, and 0 / 0 is NaN. */
  lemma QuotientMeaning(x: real, y: real)
    ensures y != 0.0 ==> Quotient(x, y).Finite? && Quotient(x, y).v * y == x
    ensures y == 0.0 && x > 0.0 ==> Quotient(x, y) == PosInf
    ensures y == 0.0 && x < 0.0 ==> Quotient(x, y) == NegInf
    ensures Quotient(x, y) == NaN <==> x == 0.0 == y
  {
  }

  /** Comparison is the order of the reals, with the infinities at its ends. */
  lemma LessMeaning(x: real, y: real)
    ensures Less(Finite(x), Finite(y)) <==> x < y
    ensures LessEqual(Finite(x), Finite(y)) <==> x <= y
    ensures Equal(Finite(x), Finite(y)) <==> x == y
    ensures Less(NegInf, Finite(x)) && Less(Finite(x), PosInf)
  {
  }

  /** Away from NaN exactly one of less, equal and greater holds; with a NaN none. */
  lemma Trichotomy(a: Double, b: Double)
    ensures a != NaN && b != NaN ==> (Less(a, b) || Less(b, a) || a == b)
    ensures !(Less(a, b) && Less(b, a)) && !(Less(a, b) && a == b)
    ensures Equal(a, b) <==> a == b && a != NaN
    ensures LessEqual(a, b) <==> Less(a, b) || Equal(a, b)
    ensures a == NaN || b == NaN ==> !Less(a, b) && !LessEqual(a, b) && !Equal(a, b)
  {
  }

  lemma LessIsTransitive(a: Double, b: Double, c: Double)
    requires Less(a, b) && Less(b, c)
    ensures Less(a, c)
  {
  }

  /** Truncation is the nearest integer on the side of zero. */
  lemma TruncateMeaning(x: real)
    ensures x >= 0.0 ==> Truncate(x) as real <= x < Truncate(x) as real + 1.0
    ensures x < 0.0 ==> Truncate(x) as real - 1.0 < x <= Truncate(x) as real
  {
  }
}
