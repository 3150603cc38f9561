/**
 * src/Point.js: a mutable point with the small vector algebra the sweep uses
 * (cross product, dot product, difference, sum).  `Pt` is the coordinate pair a
 * `Point` holds; the algebra is stated once on `Pt` and the class is proved against it.
 */
module Points {

  /** A coordinate pair. */
  datatype Pt = Pt(x: real, y: real)

  /** The cross product (2-D determinant) of `a` and `b`. */
  function Cross(a: Pt, b: Pt): real
  {
    a.x * b.y - a.y * b.x
  }

  /** The dot product of `a` and `b`. */
  function Inner(a: Pt, b: Pt): real
  {
    a.x * b.x + a.y * b.y
  }

  /** The squared length of `a`: its dot product with itself, never negative. */
  function SquaredLength(a: Pt): (r: real)
    ensures r == Inner(a, a)
    ensures r >= 0.0
  {
    a.x * a.x + a.y * a.y
  }

  /** `a - b`, coordinate-wise. */
  function Minus(a: Pt, b: Pt): Pt
  {
    Pt(a.x - b.x, a.y - b.y)
  }

  /** `a + b`, coordinate-wise. */
  function Plus(a: Pt, b: Pt): Pt
  {
    Pt(a.x + b.x, a.y + b.y)
  }

  /** Swapping the operands of the cross product negates it; a vector crossed with itself is 0. */
  lemma CrossAntisymmetric(a: Pt, b: Pt)
    ensures Cross(a, b) == -Cross(b, a)
    ensures Cross(a, a) == 0.0
  {
  }

  /** The dot product is symmetric. */
  lemma InnerSymmetric(a: Pt, b: Pt)
    ensures Inner(a, b) == Inner(b, a)
  {
  }

  /** Subtracting then adding `b` gives back `a`, and the other way round. */
  lemma MinusPlusRoundTrip(a: Pt, b: Pt)
    ensures Plus(Minus(a, b), b) == a
    ensures Minus(Plus(a, b), b) == a
  {
  }

  /** Point: a point whose coordinates `moveTo` changes in place. */
  class Point {
    var x: real
    var y: real

    /** The coordinates this point holds. */
    function Value(): Pt
      reads this
    {
      Pt(x, y)
    }

    /** Point.constructor: a point at (`x`, `y`). */
    constructor(x: real, y: real)
      ensures Value() == Pt(x, y)
    {
      this.x := x;
      this.y := y;
    }

    /** Point.moveTo: sets exactly the two coordinates. */
    method MoveTo(x: real, y: real)
      modifies this
      ensures Value() == Pt(x, y)
    {
      this.x := x;
      this.y := y;
    }

    /** Point.norm2: the squared distance to the origin. */
    function Norm2(): (r: real)
      reads this
      ensures r == Inner(Value(), Value()) && r >= 0.0
    {
      SquaredLength(Value())
    }

    /** Point.determinant: the cross product of this point with `p`. */
    function Determinant(p: Point): (r: real)
      reads this, p
      ensures r == Cross(Value(), p.Value())
    {
      x * p.y - y * p.x
    }

    /** Point.dot: the dot product of this point with `p`. */
    function Dot(p: Point): (r: real)
      reads this, p
      ensures r == Inner(Value(), p.Value())
    {
      x * p.x + y * p.y
    }

    /** Point.clone: a new point at the same place. */
    method Clone() returns (q: Point)
      ensures fresh(q) && q.Value() == Value()
    {
      q := new Point(x, y);
    }

    /** Point.diff: a new point at this point minus `p`. */
    method Diff(p: Point) returns (q: Point)
      ensures fresh(q) && q.Value() == Minus(Value(), p.Value())
    {
      q := new Point(x - p.x, y - p.y);
    }

    /** Point.sum: a new point at this point plus `p`. */
    method Sum(p: Point) returns (q: Point)
      ensures fresh(q) && q.Value() == Plus(Value(), p.Value())
    {
      q := new Point(x + p.x, y + p.y);
    }
  }

  /** `a.determinant(b) == -b.determinant(a)` and `a.determinant(a) == 0` on Point objects. */
  lemma DeterminantAntisymmetric(a: Point, b: Point)
    ensures a.Determinant(b) == -b.Determinant(a)
    ensures a.Determinant(a) == 0.0
  {
    CrossAntisymmetric(a.Value(), b.Value());
  }

  /** `a.dot(b) == b.dot(a)` on Point objects. */
  lemma DotSymmetric(a: Point, b: Point)
    ensures a.Dot(b) == b.Dot(a)
  {
    InnerSymmetric(a.Value(), b.Value());
  }
}
