/** Facts about multiplication and Euclidean division that the buffer
    offsets of the renderer rely on. */
module Arith {

  /** Euclidean division by `s` has a unique quotient and remainder. */
  lemma DivModUnique(s: nat, q: int, r: int, k: int)
    requires 0 <= r < s && k == q * s + r
    ensures k / s == q && k % s == r
  {
    var q', r' := k / s, k % s;
    assert (q - q') * s == r' - r;
    if q > q' {
      MulMono(1, q - q', s);
    } else if q < q' {
      MulMono(1, q' - q, s);
    }
  }

  /** Multiplying by a natural number keeps the order. */
  lemma MulMono(a: int, b: int, s: nat)
    requires a <= b
    ensures a * s <= b * s
  {
    assert b * s - a * s == (b - a) * s;
  }
}
