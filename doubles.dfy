/** The values a C `double` takes in the renderer, without rounding: an exact
    real, one of the two infinities, or NaN.  Only the operations the cube test
    uses are modelled: comparison, `fmin`/`fmax` (C99 semantics) and division of
    two finite operands, which yields an infinity or NaN when the divisor is 0. */
module Doubles {

  datatype Double = NaN | NegInf | Finite(v: real) | PosInf

  /** C's `x <= y`: false whenever an operand is NaN. */
  predicate Le(x: Double, y: Double)
    ensures Le(x, y) ==> !x.NaN? && !y.NaN?
    ensures x.Finite? && y.Finite? ==> (Le(x, y) <==> x.v <= y.v)
    ensures x.NegInf? && !y.NaN? ==> Le(x, y)
    ensures y.PosInf? && !x.NaN? ==> Le(x, y)
    ensures x.PosInf? ==> (Le(x, y) <==> y.PosInf?)
    ensures y.NegInf? ==> (Le(x, y) <==> x.NegInf?)
  {
    !x.NaN? && !y.NaN? &&
    (x.NegInf? || y.PosInf? || (x.Finite? && y.Finite? && x.v <= y.v))
  }

  /** C's `x > y`: false whenever an operand is NaN. */
  predicate Gt(x: Double, y: Double)
    ensures Gt(x, y) ==> !x.NaN? && !y.NaN?
    ensures !x.NaN? && !y.NaN? ==> (Gt(x, y) <==> Le(y, x) && x != y)
    ensures x.Finite? && y.Finite? ==> (Gt(x, y) <==> x.v > y.v)
  {
    !x.NaN? && !y.NaN? && !Le(x, y)
  }

  /** C99 `fmax`: the larger operand; a NaN operand is ignored. */
  function FMax(x: Double, y: Double): (r: Double)
    ensures x.NaN? ==> r == y
    ensures y.NaN? ==> r == x
    ensures !x.NaN? && !y.NaN? ==> (r == x || r == y) && Le(x, r) && Le(y, r)
  {
    if x.NaN? then y
    else if y.NaN? then x
    else if Le(x, y) then y
    else x
  }

  /** C99 `fmin`: the smaller operand; a NaN operand is ignored. */
  function FMin(x: Double, y: Double): (r: Double)
    ensures x.NaN? ==> r == y
    ensures y.NaN? ==> r == x
    ensures !x.NaN? && !y.NaN? ==> (r == x || r == y) && Le(r, x) && Le(r, y)
  {
    if x.NaN? then y
    else if y.NaN? then x
    else if Le(x, y) then x
    else y
  }

  /** IEEE-754 quotient `n / d` of two finite operands, computed exactly.  When
      `d` is zero it arises as `a - a` in the renderer, a positive zero, so the
      quotient takes the sign of `n`, and `0 / 0` is NaN. */
  function Div(n: real, d: real): (r: Double)
    ensures d != 0.0 ==> r.Finite? && r.v * d == n
    ensures d == 0.0 ==> (r == PosInf <==> n > 0.0)
    ensures d == 0.0 ==> (r == NegInf <==> n < 0.0)
    ensures d == 0.0 ==> (r == NaN <==> n == 0.0)
  {
    if d != 0.0 then Finite(n / d)
    else if n > 0.0 then PosInf
    else if n < 0.0 then NegInf
    else NaN
  }

  /** On non-NaN values `<=` is a total order. */
  lemma LeTotalOrder(x: Double, y: Double, z: Double)
    requires !x.NaN? && !y.NaN? && !z.NaN?
    ensures Le(x, x)
    ensures Le(x, y) || Le(y, x)
    ensures Le(x, y) && Le(y, x) ==> x == y
    ensures Le(x, y) && Le(y, z) ==> Le(x, z)
  {
  }

  /** `fmax` and `fmin` are commutative, associative and idempotent, NaN
      operands included. */
  lemma FMaxFMinAlgebra(x: Double, y: Double, z: Double)
    ensures FMax(x, y) == FMax(y, x) && FMin(x, y) == FMin(y, x)
    ensures FMax(FMax(x, y), z) == FMax(x, FMax(y, z))
    ensures FMin(FMin(x, y), z) == FMin(x, FMin(y, z))
    ensures FMax(x, x) == x && FMin(x, x) == x
  {
  }
}
