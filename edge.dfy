/**
 * src/Edge.js: an edge of the diagram, lying between a left and a right site, with a
 * start vertex `va` and an end vertex `vb` (either may still be missing).
 *
 * `EdgeState<V>` is what an edge holds, over any vertex type `V`: the sweep names
 * vertices by number, the `Edge` class holds `Vertex` objects.  The endpoint rules
 * are stated once, as functions on `EdgeState`, and the class is proved against them.
 */
module Edges {
  import opened Wrappers
  import opened Points
  import opened Sites
  import opened Vertices

  datatype EdgeState<V> = EdgeState(left: Option<Site>, right: Option<Site>, va: Option<V>, vb: Option<V>)

  /** The `v` is one of the two endpoints of `e`. */
  predicate HasEndpoint<V(==)>(e: EdgeState<V>, v: V)
  {
    e.va == Some(v) || e.vb == Some(v)
  }

  /**
   * Edge.setStartPoint: an edge with no endpoint yet takes `v` as its start and
   * (`left`, `right`) as its sites; otherwise `v` becomes the end when the edge's left
   * site is `right` (the edge is seen from the other side), and the start when not.
   */
  function StartPoint<V>(e: EdgeState<V>, left: Option<Site>, right: Option<Site>, v: V): (r: EdgeState<V>)
    ensures r.va == Some(v) || r.vb == Some(v)
    ensures e.va.None? && e.vb.None? ==> r == EdgeState(left, right, Some(v), None)
    ensures e.va.Some? || e.vb.Some? ==> r.left == e.left && r.right == e.right
    ensures (e.va.Some? || e.vb.Some?) && e.left == right ==> r.vb == Some(v) && r.va == e.va
    ensures (e.va.Some? || e.vb.Some?) && e.left != right ==> r.va == Some(v) && r.vb == e.vb
  {
    if e.va.None? && e.vb.None? then
      EdgeState(left, right, Some(v), None)
    else if e.left == right then
      e.(vb := Some(v))
    else
      e.(va := Some(v))
  }

  /**
   * Edge.setEndPoint: the start point as seen from the other side.  An edge with no
   * endpoint yet takes `v` as its start and the sites reversed; otherwise `v` becomes
   * the end when the edge's left site is `left`, and the start when not.
   */
  function EndPoint<V>(e: EdgeState<V>, left: Option<Site>, right: Option<Site>, v: V): (r: EdgeState<V>)
    ensures e.va.None? && e.vb.None? ==> r == EdgeState(right, left, Some(v), None)
    ensures e.va.Some? || e.vb.Some? ==> r.left == e.left && r.right == e.right
    ensures (e.va.Some? || e.vb.Some?) && e.left == left ==> r.vb == Some(v) && r.va == e.va
    ensures (e.va.Some? || e.vb.Some?) && e.left != left ==> r.va == Some(v) && r.vb == e.vb
  {
    StartPoint(e, right, left, v)
  }

  /**
   * The endpoints follow the edge's orientation: once an edge between two different
   * sites has an endpoint, a start point given from its left site lands on `va` and an
   * end point given from its left site lands on `vb`; from the right site it is the reverse.
   */
  lemma EndpointsFollowOrientation<V>(e: EdgeState<V>, l: Site, r: Site, v: V)
    requires e.va.Some? || e.vb.Some?
    requires e.left == Some(l) && e.right == Some(r) && l != r
    ensures StartPoint(e, Some(l), Some(r), v) == e.(va := Some(v))
    ensures EndPoint(e, Some(l), Some(r), v) == e.(vb := Some(v))
    ensures StartPoint(e, Some(r), Some(l), v) == e.(vb := Some(v))
    ensures EndPoint(e, Some(r), Some(l), v) == e.(va := Some(v))
  {
  }

  /** A new edge that is given an end point first is oriented from the other side, with that point as its start. */
  lemma EndPointOnNewEdge<V>(e: EdgeState<V>, l: Option<Site>, r: Option<Site>, v: V)
    requires e.va.None? && e.vb.None?
    ensures EndPoint(e, l, r, v) == EdgeState(r, l, Some(v), None)
  {
  }

  /**
   * The edge createEdge hands out, as written: a fresh edge starts with no endpoints,
   * while an edge taken from the junkyard first gets `va` and `vb` stored as they are
   * (setVertices), and then both take the setStartPoint / setEndPoint calls.
   */
  function NewEdgeStateAsWritten<V>(pooled: bool, l: Site, r: Site, va: Option<V>, vb: Option<V>): (e: EdgeState<V>)
    ensures e.left == Some(l) || e.left == Some(r)
  {
    var e0 := if pooled then EdgeState(Some(l), Some(r), va, vb) else EdgeState(Some(l), Some(r), None, None);
    var e1 := if va.Some? then StartPoint(e0, Some(l), Some(r), va.value) else e0;
    if vb.Some? then EndPoint(e1, Some(l), Some(r), vb.value) else e1
  }

  /**
   * The edge createEdge evidently means to hand out, whether or not it was recycled:
   * the one a fresh edge becomes.  Given its start, it runs from `l` to `r` with the
   * endpoints as given; given only its end, it is oriented from the other side, with
   * that end as its start (as setEndPoint does on a new edge).
   */
  function NewEdgeState<V>(l: Site, r: Site, va: Option<V>, vb: Option<V>): (e: EdgeState<V>)
    ensures va.Some? ==> e == EdgeState(Some(l), Some(r), va, vb)
    ensures va.None? && vb.Some? ==> e == EdgeState(Some(r), Some(l), vb, None)
    ensures va.None? && vb.None? ==> e == EdgeState(Some(l), Some(r), None, None)
  {
    var e0: EdgeState<V> := EdgeState(Some(l), Some(r), None, None);
    var e1 := if va.Some? then StartPoint(e0, Some(l), Some(r), va.value) else e0;
    if vb.Some? then EndPoint(e1, Some(l), Some(r), vb.value) else e1
  }

  /**
   * The corrected edge is what the source builds for a fresh edge, and a recycled edge
   * comes out the same except when only the end vertex is given: then setVertices has
   * already stored it as `vb`, setEndPoint finds the edge started and leaves it there,
   * and the edge keeps no start point and the un-swapped sites.
   */
  lemma {:induction false} RecycledEdgeDiffers<V>(l: Site, r: Site, va: Option<V>, vb: Option<V>)
    requires l != r
    ensures NewEdgeStateAsWritten(false, l, r, va, vb) == NewEdgeState(l, r, va, vb)
    ensures NewEdgeStateAsWritten(true, l, r, va, vb) == NewEdgeState(l, r, va, vb) <==> !(va.None? && vb.Some?)
    ensures va.None? && vb.Some? ==> NewEdgeStateAsWritten(true, l, r, va, vb) == EdgeState(Some(l), Some(r), None, vb)
  {
    if va.Some? {
      var e0 := EdgeState(Some(l), Some(r), va, vb);
      assert StartPoint(e0, Some(l), Some(r), va.value) == e0;
    }
  }

  /** Edge.middlePoint: the coordinate-wise average of the two sites, as far from one as from the other. */
  function Midpoint(l: Site, r: Site): (m: Pt)
    ensures Plus(m, m) == Plus(l.Pos(), r.Pos())
    ensures SquaredLength(Minus(m, l.Pos())) == SquaredLength(Minus(m, r.Pos()))
  {
    Pt((l.x + r.x) / 2.0, (l.y + r.y) / 2.0)
  }

  /** A line `y = slope * x + yIntercept`. */
  datatype Line = Line(slope: real, yIntercept: real)

  /** Edge.isBisectorVertical: the sites are level, so the line between them is vertical. */
  predicate BisectorVertical(l: Site, r: Site)
  {
    l.y == r.y
  }

  /** Edge.isBisectorHorizontal: the sites are one above the other. */
  predicate BisectorHorizontal(l: Site, r: Site)
  {
    l.x == r.x
  }

  /**
   * Edge.bisector: the perpendicular bisector of the two sites when it is not vertical.
   * It passes through the midpoint and is perpendicular to the segment between the sites.
   */
  function Bisector(l: Site, r: Site): (line: Line)
    requires !BisectorVertical(l, r)
    ensures Midpoint(l, r).y == line.slope * Midpoint(l, r).x + line.yIntercept
    ensures line.slope * (r.y - l.y) == l.x - r.x
  {
    var f := Midpoint(l, r);
    var slope := (l.x - r.x) / (r.y - l.y);
    Line(slope, f.y - slope * f.x)
  }

  /** Every point of the bisector is as far from one site as from the other. */
  lemma {:induction false} BisectorEquidistant(l: Site, r: Site, px: real)
    requires !BisectorVertical(l, r)
    ensures var p := Pt(px, Bisector(l, r).slope * px + Bisector(l, r).yIntercept);
      SquaredLength(Minus(p, l.Pos())) == SquaredLength(Minus(p, r.Pos()))
  {
    var line := Bisector(l, r);
    var m, b := line.slope, line.yIntercept;
    var f := Midpoint(l, r);
    var p := Pt(px, m * px + b);
    var t := px - f.x;
    assert p.y - f.y == m * t;
    assert 2.0 * (p.x - f.x) == 2.0 * p.x - l.x - r.x && 2.0 * (p.y - f.y) == 2.0 * p.y - l.y - r.y;
    // |p - l|^2 - |p - r|^2 == 2 (r - l).(p - f), and p - f runs along (1, m), perpendicular to r - l
    calc {
      SquaredLength(Minus(p, l.Pos())) - SquaredLength(Minus(p, r.Pos()));
      (p.x - l.x) * (p.x - l.x) + (p.y - l.y) * (p.y - l.y) - (p.x - r.x) * (p.x - r.x) - (p.y - r.y) * (p.y - r.y);
      (r.x - l.x) * (2.0 * p.x - l.x - r.x) + (r.y - l.y) * (2.0 * p.y - l.y - r.y);
      2.0 * ((r.x - l.x) * (p.x - f.x) + (r.y - l.y) * (p.y - f.y));
      2.0 * ((r.x - l.x) * t + (r.y - l.y) * (m * t));
      2.0 * t * ((r.x - l.x) + m * (r.y - l.y));
      0.0;
    }
  }

  /** Edge.isUpward: the left site is left of the right site. */
  predicate Upward(l: Site, r: Site)
  {
    l.x < r.x
  }

  /** Edge.isDownward: the left site is right of the right site. */
  predicate Downward(l: Site, r: Site)
  {
    l.x > r.x
  }

  /**
   * Where Bisector has no line: with level sites (BisectorVertical) every point of the
   * vertical line through the midpoint, and with sites one above the other
   * (BisectorHorizontal) every point of the horizontal one, is as far from one site as
   * from the other.
   */
  lemma {:induction false} AxisBisectorEquidistant(l: Site, r: Site, t: real)
    ensures BisectorVertical(l, r) ==> var p := Pt(Midpoint(l, r).x, t);
      SquaredLength(Minus(p, l.Pos())) == SquaredLength(Minus(p, r.Pos()))
    ensures BisectorHorizontal(l, r) ==> var p := Pt(t, Midpoint(l, r).y);
      SquaredLength(Minus(p, l.Pos())) == SquaredLength(Minus(p, r.Pos()))
  {
    var f := Midpoint(l, r);
    if BisectorVertical(l, r) {
      var p := Pt(f.x, t);
      assert p.x - l.x == -(p.x - r.x);
    }
    if BisectorHorizontal(l, r) {
      var p := Pt(t, f.y);
      assert p.y - l.y == -(p.y - r.y);
    }
  }

  /** An edge is never both upward and downward, and is neither exactly when its bisector is horizontal. */
  lemma DirectionsExclusive(l: Site, r: Site)
    ensures !(Upward(l, r) && Downward(l, r))
    ensures !Upward(l, r) && !Downward(l, r) <==> BisectorHorizontal(l, r)
  {
  }

  /** Edge: the two sites and two endpoints of one edge, updated in place. */
  class Edge {
    var left: Option<Site>
    var right: Option<Site>
    var va: Option<Vertex>
    var vb: Option<Vertex>

    /** What this edge holds. */
    function State(): EdgeState<Vertex>
      reads this
    {
      EdgeState(left, right, va, vb)
    }

    /** Edge.constructor: the two sites and no endpoints. */
    constructor(left: Option<Site>, right: Option<Site>)
      ensures State() == EdgeState(left, right, None, None)
    {
      this.left, this.right := left, right;
      va, vb := None, None;
    }

    /** Edge.setSites: stores both sites as given and nothing else. */
    method SetSites(left: Option<Site>, right: Option<Site>)
      modifies this
      ensures State() == old(State()).(left := left, right := right)
    {
      this.left, this.right := left, right;
    }

    /** Edge.setVertices: stores both endpoints as given and nothing else. */
    method SetVertices(va: Option<Vertex>, vb: Option<Vertex>)
      modifies this
      ensures State() == old(State()).(va := va, vb := vb)
    {
      this.va, this.vb := va, vb;
    }

    /** Edge.setStartPoint. */
    method SetStartPoint(left: Option<Site>, right: Option<Site>, vertex: Vertex)
      modifies this
      ensures State() == StartPoint(old(State()), left, right, vertex)
    {
      if va.None? && vb.None? {
        va := Some(vertex);
        SetSites(left, right);
      } else if this.left == right {
        vb := Some(vertex);
      } else {
        va := Some(vertex);
      }
    }

    /** Edge.setEndPoint: setStartPoint with the sites swapped. */
    method SetEndPoint(left: Option<Site>, right: Option<Site>, vertex: Vertex)
      modifies this
      ensures State() == EndPoint(old(State()), left, right, vertex)
    {
      SetStartPoint(right, left, vertex);
    }

    /** Both sites are present, as the geometric queries need. */
    predicate Sited()
      reads this
    {
      left.Some? && right.Some?
    }

    /** Edge.middlePoint. */
    function MiddlePoint(): (m: Pt)
      reads this
      requires Sited()
      ensures Plus(m, m) == Plus(left.value.Pos(), right.value.Pos())
    {
      Midpoint(left.value, right.value)
    }

    /** Edge.isBisectorVertical. */
    predicate IsBisectorVertical()
      reads this
      requires Sited()
    {
      BisectorVertical(left.value, right.value)
    }

    /** Edge.isBisectorHorizontal. */
    predicate IsBisectorHorizontal()
      reads this
      requires Sited()
    {
      BisectorHorizontal(left.value, right.value)
    }

    /** Edge.bisector: the line through the middle point, perpendicular to the sites' segment. */
    function GetBisector(): (line: Line)
      reads this
      requires Sited() && !IsBisectorVertical()
      ensures MiddlePoint().y == line.slope * MiddlePoint().x + line.yIntercept
      ensures line.slope * (right.value.y - left.value.y) == left.value.x - right.value.x
    {
      Bisector(left.value, right.value)
    }

    /** Edge.isUpward. */
    predicate IsUpward()
      reads this
      requires Sited()
    {
      Upward(left.value, right.value)
    }

    /** Edge.isDownward. */
    predicate IsDownward()
      reads this
      requires Sited()
    {
      Downward(left.value, right.value)
    }
  }
}
