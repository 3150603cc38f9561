/**
 * The circumscribed circle src/Voronoi.js computes in place, twice: attachCircleEvent
 * finds the circle through the sites of an arc and its two neighbours (with the origin
 * moved to the middle site), and addBeachSection finds the vertex where a new site
 * lands between two arcs (with the origin moved to the left site).  Both use the same
 * formula, stated once here as `Circumcenter`.
 */
module Circles {
  import opened Wrappers
  import opened Points
  import opened Sites

  /** The doubled determinant the formula divides by: 0 exactly when the three points are collinear. */
  function Denominator(u: Pt, v: Pt): real
  {
    2.0 * Cross(u, v)
  }

  /**
   * The centre of the circle through the origin, `u` and `v`:
   * `((v.y |u|² - u.y |v|²) / d, (u.x |v|² - v.x |u|²) / d)` with `d = 2 u×v`.
   */
  function Circumcenter(u: Pt, v: Pt): (p: Pt)
    requires Cross(u, v) != 0.0
    ensures Inner(p, u) * 2.0 == SquaredLength(u)
    ensures Inner(p, v) * 2.0 == SquaredLength(v)
  {
    var d := Denominator(u, v);
    var hu, hv := SquaredLength(u), SquaredLength(v);
    var p := Pt((v.y * hu - u.y * hv) / d, (u.x * hv - v.x * hu) / d);
    CenterOnChord(u, v, d, p, hu, hv);
    p
  }

  /** The dot products the centre's coordinates are built to give. */
  lemma CenterOnChord(u: Pt, v: Pt, d: real, p: Pt, hu: real, hv: real)
    requires d == 2.0 * Cross(u, v) && d != 0.0
    requires p.x == (v.y * hu - u.y * hv) / d && p.y == (u.x * hv - v.x * hu) / d
    ensures Inner(p, u) * 2.0 == hu && Inner(p, v) * 2.0 == hv
  {
    var id := 1.0 / d;
    assert d * id == 1.0;
    assert p.x == (v.y * hu - u.y * hv) * id;
    assert p.y == (u.x * hv - v.x * hu) * id;
    assert Inner(p, u) == ((v.y * hu - u.y * hv) * u.x + (u.x * hv - v.x * hu) * u.y) * id;
    assert (v.y * hu - u.y * hv) * u.x + (u.x * hv - v.x * hu) * u.y == hu * Cross(u, v);
    assert Inner(p, v) == ((v.y * hu - u.y * hv) * v.x + (u.x * hv - v.x * hu) * v.y) * id;
    assert (v.y * hu - u.y * hv) * v.x + (u.x * hv - v.x * hu) * v.y == hv * Cross(u, v);
  }

  /** `2 p.u == |u|²` says `p` is as far from `u` as from the origin. */
  lemma ChordEquidistant(p: Pt, u: Pt)
    ensures Inner(p, u) * 2.0 == SquaredLength(u) <==> SquaredLength(Minus(p, u)) == SquaredLength(p)
  {
    assert SquaredLength(Minus(p, u)) == SquaredLength(p) - 2.0 * Inner(p, u) + SquaredLength(u);
  }

  /** The centre is as far from the origin as from `u` and from `v`. */
  lemma CircumcenterEquidistant(u: Pt, v: Pt)
    requires Cross(u, v) != 0.0
    ensures var p := Circumcenter(u, v);
      SquaredLength(Minus(p, u)) == SquaredLength(p) && SquaredLength(Minus(p, v)) == SquaredLength(p)
  {
    var p := Circumcenter(u, v);
    ChordEquidistant(p, u);
    ChordEquidistant(p, v);
  }

  /** The centre of the circle through `a`, `b` and `c`, computed with the origin moved to `o`, one of the three. */
  function CenterThrough(o: Pt, u: Pt, v: Pt): (p: Pt)
    requires Cross(Minus(u, o), Minus(v, o)) != 0.0
  {
    Plus(Circumcenter(Minus(u, o), Minus(v, o)), o)
  }

  /** Moving the origin back keeps the centre equidistant from the three points. */
  lemma {:induction false} CenterThroughEquidistant(o: Pt, u: Pt, v: Pt)
    requires Cross(Minus(u, o), Minus(v, o)) != 0.0
    ensures var p := CenterThrough(o, u, v);
      SquaredLength(Minus(p, u)) == SquaredLength(Minus(p, o)) && SquaredLength(Minus(p, v)) == SquaredLength(Minus(p, o))
  {
    var q := Circumcenter(Minus(u, o), Minus(v, o));
    CircumcenterEquidistant(Minus(u, o), Minus(v, o));
    var p := Plus(q, o);
    assert Minus(p, o) == q;
    assert Minus(p, u) == Minus(q, Minus(u, o));
    assert Minus(p, v) == Minus(q, Minus(v, o));
  }

  /** Where attachCircleEvent puts an event: the centre of the circle and the y of its bottom. */
  datatype Collapse = Collapse(x: real, y: real, ycenter: real)

  /**
   * attachCircleEvent's geometry for the arc of `c` between the arcs of `l` and `r`:
   * nothing when the two neighbours are the same site or when the three sites do not
   * turn clockwise by more than the tolerance (`2 a×c >= -2e-12`); otherwise the
   * circle's centre and its bottom `ycenter + sqrt(x² + y²)`.
   */
  function CollapseOf(sqrt: real -> real, l: Site, c: Site, r: Site): (k: Option<Collapse>)
    ensures k.Some? ==> l != r && Denominator(Minus(l.Pos(), c.Pos()), Minus(r.Pos(), c.Pos())) < -0.000000000002
    ensures k.Some? ==> k.value.y == k.value.ycenter + sqrt(SquaredLength(Minus(Pt(k.value.x, k.value.ycenter), c.Pos())))
  {
    if l == r then None
    else
      var b := c.Pos();
      var a, cc := Minus(l.Pos(), b), Minus(r.Pos(), b);
      var d := Denominator(a, cc);
      if d >= -0.000000000002 then None
      else
        var p := Circumcenter(a, cc);
        assert Minus(Pt(p.x + b.x, p.y + b.y), b) == p;
        assert SquaredLength(Minus(Pt(p.x + b.x, p.y + b.y), b)) == p.x * p.x + p.y * p.y;
        Some(Collapse(p.x + b.x, p.y + b.y + sqrt(p.x * p.x + p.y * p.y), p.y + b.y))
  }

  /** An event's centre is as far from the collapsing arc's site as from both neighbours' sites. */
  lemma CollapseCentered(sqrt: real -> real, l: Site, c: Site, r: Site)
    requires CollapseOf(sqrt, l, c, r).Some?
    ensures var k := CollapseOf(sqrt, l, c, r).value;
      var center := Pt(k.x, k.ycenter);
      SquaredLength(Minus(center, l.Pos())) == SquaredLength(Minus(center, c.Pos()))
      && SquaredLength(Minus(center, r.Pos())) == SquaredLength(Minus(center, c.Pos()))
  {
    var b := c.Pos();
    CenterThroughEquidistant(b, l.Pos(), r.Pos());
    var p := Circumcenter(Minus(l.Pos(), b), Minus(r.Pos(), b));
    assert Pt(p.x + b.x, p.y + b.y) == CenterThrough(b, l.Pos(), r.Pos());
  }

  /** The three sites are not collinear exactly when the event denominator is not 0. */
  lemma CollapseNeedsTurn(sqrt: real -> real, l: Site, c: Site, r: Site)
    ensures CollapseOf(sqrt, l, c, r).Some? <==>
      l != r && Denominator(Minus(l.Pos(), c.Pos()), Minus(r.Pos(), c.Pos())) < -0.000000000002
  {
  }

  /**
   * The vertex addBeachSection creates when `s` lands between the arcs of `l` and `r`:
   * the centre of the circle through the three sites, computed with the origin at `l`;
   * none when the three are collinear (the source divides by 0 there).
   */
  function LandingVertex(l: Site, s: Site, r: Site): (v: Option<Pt>)
    ensures v.Some? <==> Cross(Minus(s.Pos(), l.Pos()), Minus(r.Pos(), l.Pos())) != 0.0
  {
    var a := l.Pos();
    var b, c := Minus(s.Pos(), a), Minus(r.Pos(), a);
    if Cross(b, c) == 0.0 then None
    else
      var p := Circumcenter(b, c);
      Some(Pt(p.x + a.x, p.y + a.y))
  }

  /** The landing vertex is as far from the new site as from both sites whose arcs it lands between. */
  lemma LandingVertexCentered(l: Site, s: Site, r: Site)
    requires LandingVertex(l, s, r).Some?
    ensures var v := LandingVertex(l, s, r).value;
      SquaredLength(Minus(v, s.Pos())) == SquaredLength(Minus(v, l.Pos()))
      && SquaredLength(Minus(v, r.Pos())) == SquaredLength(Minus(v, l.Pos()))
  {
    CenterThroughEquidistant(l.Pos(), s.Pos(), r.Pos());
  }
}
