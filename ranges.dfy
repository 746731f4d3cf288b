/** The closed interval `Range` of `voxel.c`: the reals `t` with `a <= t <= b`,
    with bounds that are C doubles (so `b` may be `INFINITY`). */
module Ranges {
  import opened Doubles

  datatype Range = Range(a: Double, b: Double)

  /** `is_empty_range`: a range is empty exactly when its lower bound exceeds
      its upper bound; no other value marks emptiness. */
  predicate IsEmpty(r: Range)
    ensures IsEmpty(r) ==> NoNaN(r)
    ensures r.a.Finite? && r.b.Finite? ==> (IsEmpty(r) <==> r.a.v > r.b.v)
    ensures NoNaN(r) ==> (IsEmpty(r) <==> !Le(r.a, r.b))
  {
    Gt(r.a, r.b)
  }

  /** The real `t` lies in `r`. */
  predicate Contains(r: Range, t: real) {
    Le(r.a, Finite(t)) && Le(Finite(t), r.b)
  }

  /** Neither bound is NaN: every range the cube test builds is of this kind. */
  predicate NoNaN(r: Range) {
    !r.a.NaN? && !r.b.NaN?
  }

  /** `intersectRanges`: the larger lower bound and the smaller upper bound.  On
      NaN-free ranges the result holds exactly the reals that lie in both
      arguments and sits inside both; an empty argument makes it empty. */
  function Intersect(r1: Range, r2: Range): (r: Range)
    ensures NoNaN(r1) && NoNaN(r2) ==> NoNaN(r)
    ensures NoNaN(r1) && NoNaN(r2) ==>
      Le(r1.a, r.a) && Le(r2.a, r.a) && Le(r.b, r1.b) && Le(r.b, r2.b)
    ensures NoNaN(r1) && NoNaN(r2) ==>
      forall t :: Contains(r, t) <==> Contains(r1, t) && Contains(r2, t)
    ensures IsEmpty(r1) || IsEmpty(r2) ==> IsEmpty(r)
  {
    Range(FMax(r1.a, r2.a), FMin(r1.b, r2.b))
  }

  /** A NaN-free range is empty exactly when it contains no real, except for the
      two unreachable-by-reals points `[-inf, -inf]` and `[+inf, +inf]`, which
      `is_empty_range` calls non-empty. */
  lemma EmptyIffNoMember(r: Range)
    requires NoNaN(r)
    ensures IsEmpty(r) ==> forall t :: !Contains(r, t)
    ensures !IsEmpty(r) && !(r.a == r.b && !r.a.Finite?) ==> exists t :: Contains(r, t)
  {
    if !IsEmpty(r) && !(r.a == r.b && !r.a.Finite?) {
      var t :=
        if r.a.Finite? then r.a.v
        else if r.b.Finite? then r.b.v
        else 0.0;
      assert Contains(r, t);
    }
  }

  /** Intersection is commutative and associative, and a range intersected with
      itself is unchanged. */
  lemma IntersectAlgebra(r1: Range, r2: Range, r3: Range)
    ensures Intersect(r1, r2) == Intersect(r2, r1)
    ensures Intersect(Intersect(r1, r2), r3) == Intersect(r1, Intersect(r2, r3))
    ensures Intersect(r1, r1) == r1
  {
    FMaxFMinAlgebra(r1.a, r2.a, r3.a);
    FMaxFMinAlgebra(r1.b, r2.b, r3.b);
  }
}
