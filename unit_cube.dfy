/** The slab test of `voxel.c`: the parameter interval over which the ray
    `p + t * (q - p)` lies in the unit cube `[-0.5, 0.5]^3` centred at the
    origin. */
module UnitCube {
  import opened Doubles
  import opened Ranges

  datatype V3 = V3(x: real, y: real, z: real)

  /** The ray starts at `p` (`t = 0`) and passes through `q` (`t = 1`). */
  datatype Ray = Ray(p: V3, q: V3)

  /** The coordinate at parameter `t` on an axis where the ray goes from `a`
      (at `t = 0`) to `b` (at `t = 1`). */
  function Coord(a: real, b: real, t: real): real {
    a + t * (b - a)
  }

  /** The point of `ray` at parameter `t`. */
  function PointAt(ray: Ray, t: real): V3 {
    V3(Coord(ray.p.x, ray.q.x, t), Coord(ray.p.y, ray.q.y, t), Coord(ray.p.z, ray.q.z, t))
  }

  /** The coordinate `c` lies between the two faces of the cube on its axis. */
  predicate InSlab(c: real) {
    -0.5 <= c <= 0.5
  }

  predicate InCube(v: V3) {
    InSlab(v.x) && InSlab(v.y) && InSlab(v.z)
  }

  /** Some point of the ray, at `t >= 0`, lies in the cube. */
  ghost predicate Hits(ray: Ray) {
    exists t: real :: t >= 0.0 && InCube(PointAt(ray, t))
  }

  /** On this axis the ray runs inside one face plane of the cube. */
  predicate Grazing(a: real, b: real) {
    a == b && (a == -0.5 || a == 0.5)
  }

  predicate GrazesFace(ray: Ray) {
    Grazing(ray.p.x, ray.q.x) || Grazing(ray.p.y, ray.q.y) || Grazing(ray.p.z, ray.q.z)
  }

  /** `getParameter`: the `t` at which the coordinate `a + t * (b - a)` equals
      `x`.  When `a == b` the division by zero gives an infinity, or NaN when
      also `x == a`. */
  function GetParameter(a: real, b: real, x: real): (t: Double)
    ensures a != b ==> t.Finite? && a + t.v * (b - a) == x
    ensures a == b ==> (t == PosInf <==> x > a) && (t == NegInf <==> x < a) && (t == NaN <==> x == a)
  {
    Div(x - a, b - a)
  }

  /** `t = 0` is the start of the ray and `t = 1` the point it passes through. */
  lemma GetParameterEnds(a: real, b: real)
    requires a != b
    ensures GetParameter(a, b, a) == Finite(0.0)
    ensures GetParameter(a, b, b) == Finite(1.0)
  {
    assert (b - a) / (b - a) == 1.0;
  }

  /** `getParameterRange`: the interval between the parameters of the two faces
      at `-0.5` and `+0.5`, ordered by `fmin`/`fmax` whatever the direction of
      the ray.  It is never NaN-bounded, and for `a != b` it is finite, ordered
      and non-empty. */
  function GetParameterRange(a: real, b: real): (r: Range)
    ensures NoNaN(r)
    ensures a != b ==> r.a.Finite? && r.b.Finite? && r.a.v < r.b.v
  {
    var p1 := GetParameter(a, b, -0.5);
    var p2 := GetParameter(a, b, 0.5);
    Range(FMin(p1, p2), FMax(p1, p2))
  }

  /** Multiplying by a positive factor keeps the order, by a negative one
      reverses it. */
  lemma ScaleOrder(x: real, y: real, d: real)
    requires d != 0.0
    ensures d > 0.0 ==> (x <= y <==> x * d <= y * d)
    ensures d < 0.0 ==> (x <= y <==> y * d <= x * d)
  {
    if d > 0.0 {
      if x <= y { ProductNonNegative(y - x, d); } else { ProductNonNegative(x - y, d); }
    } else {
      if x <= y { ProductNonNegative(y - x, -d); } else { ProductNonNegative(x - y, -d); }
    }
  }

  lemma ProductNonNegative(u: real, v: real)
    requires u >= 0.0 && v >= 0.0
    ensures u * v >= 0.0
  {
  }

  /** Per axis, `t` lies in the slab interval only if the ray's coordinate at
      `t` lies between the faces; the converse holds unless the ray runs inside
      a face plane, where the IEEE result `[+inf, +inf]` or `[-inf, -inf]`
      excludes every `t`. */
  lemma SlabRange(a: real, b: real, t: real)
    ensures Contains(GetParameterRange(a, b), t) ==> InSlab(Coord(a, b, t))
    ensures !Grazing(a, b) && InSlab(Coord(a, b, t)) ==> Contains(GetParameterRange(a, b), t)
  {
    if a != b {
      MovingSlabRange(a, b, t);
    } else {
      assert Coord(a, b, t) == a;
      ParallelSlabRange(a, t);
    }
  }

  /** A ray that moves along the axis: the interval holds exactly the `t` whose
      coordinate lies between the faces. */
  lemma MovingSlabRange(a: real, b: real, t: real)
    requires a != b
    ensures Contains(GetParameterRange(a, b), t) <==> InSlab(Coord(a, b, t))
  {
    var d := b - a;
    var p1 := GetParameter(a, b, -0.5);
    var p2 := GetParameter(a, b, 0.5);
    assert Coord(a, b, t) == a + t * d;
    AffineBetween(a, d, p1.v, p2.v, t);
    var lo, hi := if d > 0.0 then p1 else p2, if d > 0.0 then p2 else p1;
    assert lo.v < hi.v;
    assert FMin(p1, p2) == lo && FMax(p1, p2) == hi;
    assert GetParameterRange(a, b) == Range(lo, hi);
    assert Contains(Range(lo, hi), t) <==> lo.v <= t <= hi.v;
  }

  /** A ray parallel to the faces of an axis: the division by zero gives
      `[-inf, +inf]` strictly between the faces, and `[+inf, +inf]` or
      `[-inf, -inf]` (through NaN on a face) elsewhere. */
  lemma ParallelSlabRange(a: real, t: real)
    ensures Contains(GetParameterRange(a, a), t) <==> -0.5 < a < 0.5
  {
    var p1 := GetParameter(a, a, -0.5);
    var p2 := GetParameter(a, a, 0.5);
    if -0.5 < a < 0.5 {
      assert p1 == NegInf && p2 == PosInf;
    } else if a <= -0.5 {
      assert p2 == PosInf && (p1 == PosInf || p1 == NaN);
    } else {
      assert p1 == NegInf && (p2 == NegInf || p2 == NaN);
    }
  }

  /** On an axis with direction `d != 0`, where the coordinate `a + t * d` is
      `-0.5` at `p1` and `0.5` at `p2`, it lies between the faces exactly for
      the `t` between `p1` and `p2`. */
  lemma AffineBetween(a: real, d: real, p1: real, p2: real, t: real)
    requires d != 0.0
    requires a + p1 * d == -0.5 && a + p2 * d == 0.5
    ensures d > 0.0 ==> p1 < p2 && (p1 <= t <= p2 <==> InSlab(a + t * d))
    ensures d < 0.0 ==> p2 < p1 && (p2 <= t <= p1 <==> InSlab(a + t * d))
  {
    ScaleOrder(p1, p2, d);
    ScaleOrder(p2, p1, d);
    ScaleOrder(p1, t, d);
    ScaleOrder(t, p1, d);
    ScaleOrder(p2, t, d);
    ScaleOrder(t, p2, d);
  }

  /** `intersectUnitCube`: start from `[0, +inf]` and narrow by the x, y and z
      slab intervals in turn.  Every `t` in the result is `>= 0` and puts the
      ray's point in the cube; unless the ray grazes a face plane, every such
      `t` is in the result, and then for a ray with `p != q` the result is
      non-empty exactly when the ray hits the cube. */
  method IntersectUnitCube(ray: Ray) returns (r: Range)
    ensures NoNaN(r) && Le(Finite(0.0), r.a)
    ensures forall t :: Contains(r, t) ==> t >= 0.0 && InCube(PointAt(ray, t))
    ensures !GrazesFace(ray) ==>
      forall t :: t >= 0.0 && InCube(PointAt(ray, t)) ==> Contains(r, t)
    ensures !GrazesFace(ray) && ray.p != ray.q ==> (IsEmpty(r) <==> !Hits(ray))
  {
    var start := Range(Finite(0.0), PosInf);
    r := start;

    var rx := GetParameterRange(ray.p.x, ray.q.x);
    r := Intersect(r, rx);

    var ry := GetParameterRange(ray.p.y, ray.q.y);
    r := Intersect(r, ry);

    var rz := GetParameterRange(ray.p.z, ray.q.z);
    r := Intersect(r, rz);

    assert Le(Finite(0.0), r.a) by {
      LeTotalOrder(start.a, Intersect(start, rx).a, Intersect(Intersect(start, rx), ry).a);
      LeTotalOrder(start.a, Intersect(Intersect(start, rx), ry).a, r.a);
    }
    forall t
      ensures Contains(r, t) ==> t >= 0.0 && InCube(PointAt(ray, t))
      ensures !GrazesFace(ray) && t >= 0.0 && InCube(PointAt(ray, t)) ==> Contains(r, t)
    {
      CubeRangeMembers(ray, start, rx, ry, rz, t);
    }
    if !GrazesFace(ray) && ray.p != ray.q {
      HitIffNonEmpty(ray, r, rx, ry, rz, start);
    }
  }

  /** The members of the narrowed range are the parameters that lie in all
      three slabs and are `>= 0`. */
  lemma CubeRangeMembers(ray: Ray, start: Range, rx: Range, ry: Range, rz: Range, t: real)
    requires start == Range(Finite(0.0), PosInf)
    requires rx == GetParameterRange(ray.p.x, ray.q.x)
    requires ry == GetParameterRange(ray.p.y, ray.q.y)
    requires rz == GetParameterRange(ray.p.z, ray.q.z)
    ensures Contains(Intersect(Intersect(Intersect(start, rx), ry), rz), t) ==>
      t >= 0.0 && InCube(PointAt(ray, t))
    ensures !GrazesFace(ray) && t >= 0.0 && InCube(PointAt(ray, t)) ==>
      Contains(Intersect(Intersect(Intersect(start, rx), ry), rz), t)
  {
    SlabRange(ray.p.x, ray.q.x, t);
    SlabRange(ray.p.y, ray.q.y, t);
    SlabRange(ray.p.z, ray.q.z, t);
    CombineSlabs(start, rx, ry, rz, t, PointAt(ray, t), GrazesFace(ray));
  }

  /** The propositional core of `CubeRangeMembers`, kept apart from the
      arithmetic of the slab parameters. */
  lemma CombineSlabs(start: Range, rx: Range, ry: Range, rz: Range, t: real, v: V3, grazes: bool)
    requires start == Range(Finite(0.0), PosInf)
    requires NoNaN(rx) && NoNaN(ry) && NoNaN(rz)
    requires Contains(rx, t) ==> InSlab(v.x)
    requires Contains(ry, t) ==> InSlab(v.y)
    requires Contains(rz, t) ==> InSlab(v.z)
    requires !grazes ==> (InSlab(v.x) ==> Contains(rx, t)) && (InSlab(v.y) ==> Contains(ry, t)) && (InSlab(v.z) ==> Contains(rz, t))
    ensures Contains(Intersect(Intersect(Intersect(start, rx), ry), rz), t) ==> t >= 0.0 && InCube(v)
    ensures !grazes && t >= 0.0 && InCube(v) ==> Contains(Intersect(Intersect(Intersect(start, rx), ry), rz), t)
  {
    NarrowMembers(start, rx, ry, rz, t);
  }

  /** Narrowing `[0, +inf]` by three NaN-free ranges keeps the `t >= 0` that
      lie in all three. */
  lemma NarrowMembers(start: Range, rx: Range, ry: Range, rz: Range, t: real)
    requires start == Range(Finite(0.0), PosInf)
    requires NoNaN(rx) && NoNaN(ry) && NoNaN(rz)
    ensures Contains(Intersect(Intersect(Intersect(start, rx), ry), rz), t) <==>
      t >= 0.0 && Contains(rx, t) && Contains(ry, t) && Contains(rz, t)
  {
    var r1 := Intersect(start, rx);
    var r2 := Intersect(r1, ry);
    assert Contains(r1, t) <==> t >= 0.0 && Contains(rx, t);
    assert Contains(r2, t) <==> Contains(r1, t) && Contains(ry, t);
  }

  /** The step from "the result holds exactly the hitting parameters" to "the
      result is non-empty exactly when the ray hits": some axis of a ray with
      `p != q` bounds the result above by a finite value, so a non-empty
      result has a finite lower bound, which is a hitting parameter. */
  lemma HitIffNonEmpty(ray: Ray, r: Range, rx: Range, ry: Range, rz: Range, start: Range)
    requires ray.p != ray.q
    requires start == Range(Finite(0.0), PosInf)
    requires rx == GetParameterRange(ray.p.x, ray.q.x)
    requires ry == GetParameterRange(ray.p.y, ray.q.y)
    requires rz == GetParameterRange(ray.p.z, ray.q.z)
    requires r == Intersect(Intersect(Intersect(start, rx), ry), rz)
    requires NoNaN(r) && Le(Finite(0.0), r.a)
    requires forall t :: Contains(r, t) ==> t >= 0.0 && InCube(PointAt(ray, t))
    requires forall t :: t >= 0.0 && InCube(PointAt(ray, t)) ==> Contains(r, t)
    ensures IsEmpty(r) <==> !Hits(ray)
  {
    var r1 := Intersect(start, rx);
    var r2 := Intersect(r1, ry);
    if !IsEmpty(r) {
      // The upper bound is below the finite bound of some non-degenerate axis.
      var axis :=
        if ray.p.x != ray.q.x then rx
        else if ray.p.y != ray.q.y then ry
        else rz;
      assert axis.b.Finite?;
      assert Le(r.b, axis.b) by {
        LeTotalOrder(r.b, r2.b, ry.b);
        LeTotalOrder(r.b, r2.b, r1.b);
        LeTotalOrder(r.b, r1.b, rx.b);
      }
      assert !r.b.PosInf?;
      assert r.a.Finite?;
      assert Contains(r, r.a.v);
      assert r.a.v >= 0.0 && InCube(PointAt(ray, r.a.v));
    }
    if Hits(ray) {
      var t :| t >= 0.0 && InCube(PointAt(ray, t));
      assert Contains(r, t);
      LeTotalOrder(r.a, Finite(t), r.b);
      assert !IsEmpty(r);
    }
  }
}
