/** The frozen value types of the simulator: vectors, bounding boxes, the two
    shape variants (circle and polyline) and the scene that lists them.
    Every operation builds a new value; nothing here changes state. */
module Geometry {
  import opened Numerics

  /** A 2-D vector over the reals; `Vector()` in the source is the origin. */
  datatype Vector = Vector(x: real, y: real)
  {
    /** `self + other`, componentwise. */
    function Add(other: Vector): Vector
    {
      Vector(x + other.x, y + other.y)
    }

    /** `self - other`, componentwise. */
    function Sub(other: Vector): Vector
    {
      Vector(x - other.x, y - other.y)
    }

    /** `self * c`: both components scaled by `c`. */
    function Mul(c: real): Vector
    {
      Vector(c * x, c * y)
    }

    /** `c * self`, which the source forwards to `self * c`. */
    function RMul(c: real): (v: Vector)
      ensures v.x == x * c && v.y == y * c
    {
      Mul(c)
    }

    /** `self / d`; the source raises on a zero divisor. */
    function Div(d: real): Vector
      requires d != 0.0
    {
      Vector(x / d, y / d)
    }

    /** `abs(self)`, the Euclidean length `(x*x + y*y) ** 0.5`. */
    function Abs(): real
    {
      Sqrt(Square(x) + Square(y))
    }
  }

  /** The origin, the source's `Vector(0, 0)`. */
  const Zero := Vector(0.0, 0.0)

  /** Subtraction undoes addition: `(a + b) - b == a`. */
  lemma AddSubCancel(a: Vector, b: Vector)
    ensures a.Add(b).Sub(b) == a
  {
  }

  /** Vector addition is commutative and associative, with `Zero` as identity. */
  lemma AddCommutativeMonoid(a: Vector, b: Vector, c: Vector)
    ensures a.Add(b) == b.Add(a)
    ensures a.Add(b).Add(c) == a.Add(b.Add(c))
    ensures a.Add(Zero) == a
  {
  }

  /** Scalar multiplication gives the same vector in either order. This holds
      by definition, since `RMul` forwards to `Mul` as `__rmul__` does; the
      lemma records the fact and carries no proof. */
  lemma MulCommutes(v: Vector, c: real)
    ensures v.RMul(c) == v.Mul(c)
  {
  }

  /** The squared length `x*x + y*y` is never negative, and is zero only at the origin. */
  lemma SquaredLengthSign(v: Vector)
    ensures Square(v.x) + Square(v.y) >= 0.0
    ensures Square(v.x) + Square(v.y) == 0.0 <==> v == Zero
  {
    SquareSign(v.x);
    SquareSign(v.y);
  }

  /** Division undoes scaling and scaling undoes division, for a non-zero
      divisor. */
  lemma DivUndoesMul(v: Vector, d: real)
    requires d != 0.0
    ensures v.Div(d).Mul(d) == v
    ensures v.Mul(d).Div(d) == v
  {
  }

  /** The length is never negative. */
  lemma AbsNonNegative(v: Vector)
    requires SqrtSound()
    ensures v.Abs() >= 0.0
  {
    SquaredLengthSign(v);
    SqrtAt(Square(v.x) + Square(v.y));
  }

  /** The length is zero exactly for the origin. */
  lemma AbsZeroIff(v: Vector)
    requires SqrtSound()
    ensures v.Abs() == 0.0 <==> v == Zero
  {
    SquaredLengthSign(v);
    SqrtZeroIff(Square(v.x) + Square(v.y));
  }

  /** A vector along the x axis is as long as its x coordinate. */
  lemma AbsOnAxis(a: real)
    requires SqrtSound()
    requires a >= 0.0
    ensures Vector(a, 0.0).Abs() == a
  {
    SqrtOf(Square(a), a);
  }

  /** Scaling a vector by `c` scales its length by `|c|`. */
  lemma AbsMul(v: Vector, c: real)
    requires SqrtSound()
    ensures v.Mul(c).Abs() == (if c < 0.0 then -c else c) * v.Abs()
  {
    var q := Square(v.x) + Square(v.y);
    var a := if c < 0.0 then -c else c;
    SquaredLengthSign(v);
    SqrtAt(q);
    var s := Sqrt(q);
    SquareMul(a, s);
    SquareMul(c, v.x);
    SquareMul(c, v.y);
    assert Square(a) == Square(c);
    assert Square(a * s) == Square(v.Mul(c).x) + Square(v.Mul(c).y);
    assert a * s >= 0.0;
    SqrtOf(Square(v.Mul(c).x) + Square(v.Mul(c).y), a * s);
  }

  /** An axis-aligned box given by its lower-left and upper-right corners. */
  datatype BBox = BBox(min: Vector, max: Vector)
  {
    /** `as_tuple`: the four bounds in the order a canvas call expects. */
    function AsTuple(): (real, real, real, real)
    {
      (min.x, min.y, max.x, max.y)
    }

    /** `box + d`: both corners shifted by `d`. */
    function Add(d: Vector): BBox
    {
      BBox(min.Add(d), max.Add(d))
    }

    /** `d + box`, which the source forwards to `box + d`. */
    function RAdd(d: Vector): (b: BBox)
      ensures b.min == d.Add(min) && b.max == d.Add(max)
    {
      Add(d)
    }

    /** The box's bounds are in order on both axes. */
    predicate Proper()
    {
      min.x <= max.x && min.y <= max.y
    }

    /** The point `p` lies inside the box or on its border. */
    predicate Contains(p: Vector)
    {
      min.x <= p.x <= max.x && min.y <= p.y <= max.y
    }
  }

  /** `as_tuple` loses nothing: a box is determined by its tuple. */
  lemma AsTupleInjective(a: BBox, b: BBox)
    requires a.AsTuple() == b.AsTuple()
    ensures a == b
  {
  }

  /** Translating a box shifts its tuple by `d` in each coordinate, keeps it
      proper, and moves exactly the points it contains. */
  lemma BBoxTranslate(b: BBox, d: Vector, p: Vector)
    ensures b.Add(d).AsTuple()
         == (b.AsTuple().0 + d.x, b.AsTuple().1 + d.y, b.AsTuple().2 + d.x, b.AsTuple().3 + d.y)
    ensures b.Add(d).Proper() <==> b.Proper()
    ensures b.Add(d).Contains(p.Add(d)) <==> b.Contains(p)
  {
  }

  /** Box translation is a group action: composing shifts adds them and the
      zero shift is the identity. The last clause, `d + box == box + d`, holds
      by definition, since `RAdd` forwards to `Add` as `__radd__` does. */
  lemma BBoxTranslateAction(b: BBox, d1: Vector, d2: Vector)
    ensures b.Add(d1).Add(d2) == b.Add(d1.Add(d2))
    ensures b.Add(Zero) == b
    ensures b.RAdd(d1) == b.Add(d1)
  {
  }

  /** The polyline `points`, each shifted by `d`. */
  function Shifted(points: seq<Vector>, d: Vector): (q: seq<Vector>)
    ensures |q| == |points|
    ensures forall i :: 0 <= i < |q| ==> q[i] == points[i].Add(d)
  {
    if points == [] then [] else [points[0].Add(d)] + Shifted(points[1..], d)
  }

  /** The shapes a scene can hold: a circle of centre `o` and radius `r`, or
      a polyline through `points` in order. */
  datatype Shape = Circle(o: Vector, r: real) | Curve(points: seq<Vector>)
  {
    /** `shape + d`: every point-like field shifted by `d`, same variant. */
    function Add(d: Vector): (s: Shape)
      ensures s.Circle? <==> Circle?
      ensures Circle? ==> s.o == o.Add(d) && s.r == r
      ensures Curve? ==> |s.points| == |points|
      ensures Curve? ==> forall i :: 0 <= i < |points| ==> s.points[i] == points[i].Add(d)
    {
      match this
      case Circle(o, r) => Circle(o.Add(d), r)
      case Curve(points) => Curve(Shifted(points, d))
    }

    /** `d + shape`, which the source forwards to `shape + d`. */
    function RAdd(d: Vector): (s: Shape)
      ensures Circle? ==> s == Circle(d.Add(o), r)
      ensures Curve? ==> s.Curve? && |s.points| == |points|
      ensures Curve? ==> forall i :: 0 <= i < |points| ==> s.points[i] == d.Add(points[i])
    {
      Add(d)
    }

    /** A circle's `bbox`: its centre minus and plus the radius on both axes. */
    function BoundingBox(): BBox
      requires Circle?
    {
      BBox(Vector(o.x - r, o.y - r), Vector(o.x + r, o.y + r))
    }
  }

  /** The bounding box of a circle of non-negative radius is proper, and it
      is exactly the box of side `2r` centred on `o`. */
  lemma CircleBoxShape(c: Shape)
    requires c.Circle? && c.r >= 0.0
    ensures c.BoundingBox().Proper()
    ensures c.BoundingBox().max.Sub(c.BoundingBox().min) == Vector(2.0 * c.r, 2.0 * c.r)
    ensures c.BoundingBox().min.Add(c.BoundingBox().max) == c.o.Mul(2.0)
  {
  }

  /** Every point of the closed disc lies in the circle's bounding box. */
  lemma CircleBoxCoversDisc(c: Shape, p: Vector)
    requires c.Circle? && c.r >= 0.0
    requires Square(p.x - c.o.x) + Square(p.y - c.o.y) <= Square(c.r)
    ensures c.BoundingBox().Contains(p)
  {
    var dx, dy := p.x - c.o.x, p.y - c.o.y;
    SquareSign(dx);
    SquareSign(dy);
    AbsBelow(dx, c.r);
    AbsBelow(dy, c.r);
  }

  /** A number whose square is at most `r * r` (with `r >= 0`) lies in `[-r, r]`. */
  lemma AbsBelow(a: real, r: real)
    requires r >= 0.0 && Square(a) <= Square(r)
    ensures -r <= a <= r
  {
    if a > r {
      SquareMonotone(r, a);
    } else if a < -r {
      SquareMonotone(r, -a);
    }
  }

  /** Translating a circle then taking its box equals taking its box then
      translating: `(c + d).bbox == c.bbox + d`. */
  lemma CircleBoxCommutes(c: Shape, d: Vector)
    requires c.Circle?
    ensures c.Add(d).BoundingBox() == c.BoundingBox().Add(d)
  {
  }

  /** Shifting a polyline twice is shifting it once by the sum. This follows
      pointwise from `Shifted`'s postcondition, with no induction; automatic
      induction is switched off because Dafny's attempt at it runs out of
      resource here. */
  lemma {:induction false} ShiftedCompose(points: seq<Vector>, d1: Vector, d2: Vector)
    ensures Shifted(Shifted(points, d1), d2) == Shifted(points, d1.Add(d2))
  {
  }

  /** Shape translation is a group action: `(s + d1) + d2 == s + (d1 + d2)`
      and `s + Vector(0, 0) == s`, for circles and polylines alike. */
  lemma ShapeTranslateAction(s: Shape, d1: Vector, d2: Vector)
    ensures s.Add(d1).Add(d2) == s.Add(d1.Add(d2))
    ensures s.Add(Zero) == s
  {
  }

  /** One rendered frame: the shapes in drawing order. */
  datatype Scene = Scene(shapes: seq<Shape>)
}
