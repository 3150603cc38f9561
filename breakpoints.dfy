/**
 * Where the beach line's arcs meet (Voronoi.leftBreakPoint / rightBreakPoint) and how
 * addBeachSection decides, at one arc, where a new site lands.
 *
 * An arc is the parabola of points as far from its site (the focus) as from the sweep
 * line (the directrix).  The square root is a parameter: nothing about floating point
 * is modelled, and the algebra is proved for any `sqrt` that returns a true root.
 */
module BreakPoints {
  import opened Wrappers
  import opened Points
  import opened Sites
  import opened Extended
  import opened Epsilon

  /** The height at `x` of the parabola with focus `f` and directrix `y = d`. */
  function ParabolaY(f: Pt, d: real, x: real): (y: real)
    requires f.y != d
    ensures (x - f.x) * (x - f.x) + (y - f.y) * (y - f.y) == (y - d) * (y - d)
  {
    var y := ((x - f.x) * (x - f.x) + f.y * f.y - d * d) / (2.0 * (f.y - d));
    assert y * (2.0 * (f.y - d)) == (x - f.x) * (x - f.x) + f.y * f.y - d * d;
    y
  }

  /**
   * Voronoi.leftBreakPoint: where the arc of `site` meets the arc of `lSite`, the site of
   * the arc before it, with the sweep line at `directrix`.  An arc whose site is on the
   * sweep line is a vertical ray at the site's x; the first arc reaches to -Infinity; two
   * arcs whose sites are equally far from the sweep line meet midway.
   */
  function LeftBreakPoint(sqrt: real -> real, site: Site, lSite: Option<Site>, directrix: real): (r: Ext)
    ensures site.y == directrix ==> r == Fin(site.x)
    ensures site.y != directrix && lSite.None? ==> r == NegInf
    ensures site.y != directrix && lSite.Some? ==> r.Fin?
    ensures site.y != directrix && lSite.Some? && lSite.value.y == directrix ==> r == Fin(lSite.value.x)
    ensures site.y != directrix && lSite.Some? && lSite.value.y == site.y ==> r == Fin((site.x + lSite.value.x) / 2.0)
  {
    var pby2 := site.y - directrix;
    if pby2 == 0.0 then Fin(site.x)
    else if lSite.None? then NegInf
    else
      var lfoc := lSite.value;
      var plby2 := lfoc.y - directrix;
      if plby2 == 0.0 then Fin(lfoc.x)
      else
        var aby2 := 1.0 / pby2 - 1.0 / plby2;
        var b := (lfoc.x - site.x) / plby2;
        if aby2 != 0.0 then
          Fin((-b + sqrt(Discriminant(site, lfoc, directrix))) / aby2 + site.x)
        else
          assert pby2 == plby2 by { ReciprocalsEqual(pby2, plby2); }
          Fin((site.x + lfoc.x) / 2.0)
  }

  /** The discriminant under the square root in Voronoi.leftBreakPoint. */
  function Discriminant(site: Site, lfoc: Site, directrix: real): real
    requires site.y != directrix && lfoc.y != directrix
  {
    var pby2 := site.y - directrix;
    var plby2 := lfoc.y - directrix;
    var hl := lfoc.x - site.x;
    var aby2 := 1.0 / pby2 - 1.0 / plby2;
    var b := hl / plby2;
    b * b - 2.0 * aby2 * (hl * hl / (-2.0 * plby2) - lfoc.y + plby2 / 2.0 + site.y - pby2 / 2.0)
  }

  /** Equal reciprocals come from equal numbers. */
  lemma ReciprocalsEqual(p: real, q: real)
    requires p != 0.0 && q != 0.0 && 1.0 / p - 1.0 / q == 0.0
    ensures p == q
  {
    assert 1.0 / p == 1.0 / q;
    assert p * (1.0 / p) == 1.0 && q * (1.0 / q) == 1.0;
    assert p == p * (q * (1.0 / q)) == q * (p * (1.0 / p));
  }

  /**
   * Voronoi.rightBreakPoint: the left break point of the next arc (whose site is
   * `rSite`) when there is one; otherwise the site's x when the site is on the sweep
   * line, else +Infinity.
   */
  function RightBreakPoint(sqrt: real -> real, site: Site, rSite: Option<Site>, directrix: real): (r: Ext)
    ensures rSite.Some? ==> r == LeftBreakPoint(sqrt, rSite.value, Some(site), directrix)
    ensures rSite.None? ==> r == (if site.y == directrix then Fin(site.x) else PosInf)
  {
    if rSite.Some? then LeftBreakPoint(sqrt, rSite.value, Some(site), directrix)
    else if site.y == directrix then Fin(site.x)
    else PosInf
  }

  /**
   * The break point is where the two arcs cross: when `sqrt` gives a true square root of
   * the discriminant, the point found on the arc of `site` at the returned x is also on
   * the arc of `lSite` (it is as far from both sites as from the sweep line).
   */
  lemma {:induction false} BreakPointOnBothArcs(sqrt: real -> real, site: Site, lSite: Site, directrix: real)
    requires site.y != directrix && lSite.y != directrix
    requires sqrt(Discriminant(site, lSite, directrix)) * sqrt(Discriminant(site, lSite, directrix)) == Discriminant(site, lSite, directrix)
    ensures var x := LeftBreakPoint(sqrt, site, Some(lSite), directrix).v;
            ParabolaY(site.Pos(), directrix, x) == ParabolaY(lSite.Pos(), directrix, x)
  {
    var ip, ipl := 1.0 / (site.y - directrix), 1.0 / (lSite.y - directrix);
    Reciprocal(site.y - directrix);
    Reciprocal(lSite.y - directrix);
    var x := LeftBreakPoint(sqrt, site, Some(lSite), directrix).v;
    if ip - ipl != 0.0 {
      BreakPointSolvesQuadratic(sqrt, site, lSite, directrix);
    } else {
      BreakPointSolvesLinear(sqrt, site, lSite, directrix);
    }
    ArcsMeetWhere(site.Pos(), lSite.Pos(), directrix, x, ip, ipl);
  }

  /**
   * Where the two arcs' heights differ in curvature, the left break point's offset from
   * the site solves the quadratic of the two arcs (the root leftBreakPoint picks).
   */
  lemma BreakPointSolvesQuadratic(sqrt: real -> real, site: Site, lSite: Site, directrix: real)
    requires site.y != directrix && lSite.y != directrix && 1.0 / (site.y - directrix) - 1.0 / (lSite.y - directrix) != 0.0
    requires sqrt(Discriminant(site, lSite, directrix)) * sqrt(Discriminant(site, lSite, directrix)) == Discriminant(site, lSite, directrix)
    ensures var ip, ipl := 1.0 / (site.y - directrix), 1.0 / (lSite.y - directrix);
            var hl, u := lSite.x - site.x, LeftBreakPoint(sqrt, site, Some(lSite), directrix).v - site.x;
            (ip - ipl) * u * u + 2.0 * (hl * ipl) * u + (-hl * hl * ipl + site.y - lSite.y) == 0.0
  {
    var pl := lSite.y - directrix;
    var hl := lSite.x - site.x;
    var ip, ipl := 1.0 / (site.y - directrix), 1.0 / pl;
    var a := ip - ipl;
    var b := hl / pl;
    var c := -hl * hl * ipl + site.y - lSite.y;
    DiscriminantForm(site, lSite, directrix);
    var u := LeftBreakPoint(sqrt, site, Some(lSite), directrix).v - site.x;
    var s := sqrt(Discriminant(site, lSite, directrix));
    assert u == (-b + s) / a;
    RootOffset(a, -b + s, u);
    Quotient(hl, pl);
    QuadraticRoot(a, hl * ipl, c, s, u);
  }

  /**
   * Where both sites are equally far from the sweep line, the break point is midway and
   * the quadratic of the two arcs degenerates to a linear equation it solves.
   */
  lemma BreakPointSolvesLinear(sqrt: real -> real, site: Site, lSite: Site, directrix: real)
    requires site.y != directrix && lSite.y != directrix && 1.0 / (site.y - directrix) - 1.0 / (lSite.y - directrix) == 0.0
    ensures var ip, ipl := 1.0 / (site.y - directrix), 1.0 / (lSite.y - directrix);
            var hl, u := lSite.x - site.x, LeftBreakPoint(sqrt, site, Some(lSite), directrix).v - site.x;
            (ip - ipl) * u * u + 2.0 * (hl * ipl) * u + (-hl * hl * ipl + site.y - lSite.y) == 0.0
  {
    ReciprocalsEqual(site.y - directrix, lSite.y - directrix);
    var hl, u := lSite.x - site.x, LeftBreakPoint(sqrt, site, Some(lSite), directrix).v - site.x;
    assert u == hl / 2.0;
  }

  /** The discriminant is `b^2 - a c` for the quadratic `a u^2 + 2 b u + c` of the two arcs. */
  lemma DiscriminantForm(site: Site, lSite: Site, directrix: real)
    requires site.y != directrix && lSite.y != directrix
    ensures var ip, ipl := 1.0 / (site.y - directrix), 1.0 / (lSite.y - directrix);
            var hl := lSite.x - site.x;
            Discriminant(site, lSite, directrix)
              == (hl * ipl) * (hl * ipl) - (ip - ipl) * (-hl * hl * ipl + site.y - lSite.y)
  {
    var p := site.y - directrix;
    var pl := lSite.y - directrix;
    var hl := lSite.x - site.x;
    var ip, ipl := 1.0 / p, 1.0 / pl;
    Quotient(hl, pl);
    Quotient(hl * hl, -2.0 * pl);
    HalfReciprocal(pl, ipl);
    var a := ip - ipl;
    assert Discriminant(site, lSite, directrix)
        == (hl * ipl) * (hl * ipl) - 2.0 * a * (hl * hl * (-ipl / 2.0) - lSite.y + pl / 2.0 + site.y - p / 2.0);
  }

  /** `u = n / a` means `a u = n`. */
  lemma RootOffset(a: real, n: real, u: real)
    requires a != 0.0 && u == n / a
    ensures a * u == n
  {
  }

  /** `1 / p` is the reciprocal of `p`. */
  lemma Reciprocal(p: real)
    requires p != 0.0
    ensures p * (1.0 / p) == 1.0
  {
  }

  /** Dividing by `p` is multiplying by `1 / p`. */
  lemma Quotient(n: real, p: real)
    requires p != 0.0
    ensures n / p == n * (1.0 / p)
  {
  }

  /** The reciprocal of `-2 p` is minus half the reciprocal of `p`. */
  lemma HalfReciprocal(p: real, ip: real)
    requires p != 0.0 && ip == 1.0 / p
    ensures 1.0 / (-2.0 * p) == -ip / 2.0
  {
    Reciprocal(p);
    Reciprocal(-2.0 * p);
    assert (-2.0 * p) * (-ip / 2.0) == 1.0;
  }

  /** A root `u` with `a u = -b + s` of `a u^2 + 2 b u + c` when `s^2 = b^2 - a c`. */
  lemma QuadraticRoot(a: real, b: real, c: real, s: real, u: real)
    requires a != 0.0 && s * s == b * b - a * c && a * u == -b + s
    ensures a * u * u + 2.0 * b * u + c == 0.0
  {
    var e := a * u * u + 2.0 * b * u + c;
    assert a * e == (a * u) * (a * u) + 2.0 * b * (a * u) + a * c;
    assert a * e == 0.0;
  }

  /** The height of an arc at `x`, written with the reciprocal `ip` of the focus's distance to the sweep line. */
  lemma ParabolaForm(f: Pt, d: real, x: real, ip: real)
    requires f.y != d && ip * (f.y - d) == 1.0
    ensures 2.0 * ParabolaY(f, d, x) == (x - f.x) * (x - f.x) * ip + (f.y + d)
  {
    var n := (x - f.x) * (x - f.x) + f.y * f.y - d * d;
    var y := ParabolaY(f, d, x);
    assert y * (2.0 * (f.y - d)) == n;
    var z := ((x - f.x) * (x - f.x) * ip + (f.y + d)) / 2.0;
    assert z * (2.0 * (f.y - d)) == (x - f.x) * (x - f.x) * (ip * (f.y - d)) + (f.y + d) * (f.y - d);
    assert z * (2.0 * (f.y - d)) == n;
    assert (y - z) * (2.0 * (f.y - d)) == 0.0;
  }

  /**
   * The arcs with foci `f` (on the right) and `g` (on the left) have the same height at
   * `x` when `u = x - f.x` solves the quadratic the break point formula solves.
   */
  lemma ArcsMeetWhere(f: Pt, g: Pt, d: real, x: real, ip: real, ipl: real)
    requires f.y != d && g.y != d && ip * (f.y - d) == 1.0 && ipl * (g.y - d) == 1.0
    requires var hl := g.x - f.x; var u := x - f.x;
             (ip - ipl) * u * u + 2.0 * (hl * ipl) * u + (-hl * hl * ipl + f.y - g.y) == 0.0
    ensures ParabolaY(f, d, x) == ParabolaY(g, d, x)
  {
    var hl, u := g.x - f.x, x - f.x;
    ParabolaForm(f, d, x, ip);
    ParabolaForm(g, d, x, ipl);
    assert x - g.x == u - hl;
    assert 2.0 * ParabolaY(f, d, x) - 2.0 * ParabolaY(g, d, x)
        == (ip - ipl) * u * u + 2.0 * (hl * ipl) * u + (-hl * hl * ipl + f.y - g.y);
  }

  /** Where a new site lands relative to the arc the search is at. */
  datatype Place = GoLeft | GoRight | AfterLast | OnLeftEdge | OnRightEdge | Inside

  /**
   * The decision addBeachSection makes at one arc, as written: `dxl` is the arc's left
   * break point minus the site's x, `dxr` the site's x minus the right break point.  The
   * two edge tests are `lessThanEpsilon(-dxl)` and `lessThanEpsilon(-dxr)`.
   */
  function LandingAsWritten(dxl: Ext, dxr: Ext, hasRight: bool): Place
  {
    if GreaterThanEpsilonExt(dxl) then GoLeft
    else if GreaterThanEpsilonExt(dxr) then (if hasRight then GoRight else AfterLast)
    else if LessThanEpsilonExt(ExtNeg(dxl)) then OnLeftEdge
    else if LessThanEpsilonExt(ExtNeg(dxr)) then OnRightEdge
    else Inside
  }

  /**
   * As written, the two edge tests repeat the tests that already failed
   * (`lessThanEpsilon(-d)` is `d > ε`), so a site never lands on an edge.
   */
  lemma {:induction false} EdgeLandingUnreachable(dxl: Ext, dxr: Ext, hasRight: bool)
    ensures LandingAsWritten(dxl, dxr, hasRight) != OnLeftEdge
    ensures LandingAsWritten(dxl, dxr, hasRight) != OnRightEdge
  {
    ExtNegInvolution(dxl, dxl);
    ExtNegInvolution(dxr, dxr);
  }

  /**
   * The corrected decision differs from the one as written only where it lands on a
   * break point, and there the source as written splits the arc: the descent takes the
   * same steps and stops at the same arc either way.
   */
  lemma {:induction false} LandingAsWrittenAgrees(dxl: Ext, dxr: Ext, hasRight: bool)
    ensures Land(dxl, dxr, hasRight) in {OnLeftEdge, OnRightEdge} ==> LandingAsWritten(dxl, dxr, hasRight) == Inside
    ensures Land(dxl, dxr, hasRight) !in {OnLeftEdge, OnRightEdge} ==> LandingAsWritten(dxl, dxr, hasRight) == Land(dxl, dxr, hasRight)
  {
    EdgeLandingUnreachable(dxl, dxr, hasRight);
  }

  /** A site exactly on the left break point (`dxl = 0`) is taken as inside the arc. */
  lemma OnBreakPointAsWritten()
    ensures LandingAsWritten(Fin(0.0), Fin(-1.0), true) == Inside
    ensures Land(Fin(0.0), Fin(-1.0), true) == OnLeftEdge
  {
  }

  /** `d > -ε`: the site is not clearly past the break point. */
  predicate NearOrBefore(d: Ext)
  {
    ExtLess(Fin(-Eps), d)
  }

  /**
   * The decision addBeachSection makes at one arc, with the edge tests meant: a site
   * within ε of the left break point lands on the left edge, within ε of the right
   * break point on the right edge, and otherwise inside the arc.
   */
  function Land(dxl: Ext, dxr: Ext, hasRight: bool): Place
  {
    if GreaterThanEpsilonExt(dxl) then GoLeft
    else if GreaterThanEpsilonExt(dxr) then (if hasRight then GoRight else AfterLast)
    else if NearOrBefore(dxl) then OnLeftEdge
    else if NearOrBefore(dxr) then OnRightEdge
    else Inside
  }

  /** The corrected decision, case by case, on finite distances. */
  lemma LandingCases(dl: real, dr: real, hasRight: bool)
    ensures Land(Fin(dl), Fin(dr), hasRight) == GoLeft <==> dl > Eps
    ensures Land(Fin(dl), Fin(dr), hasRight) == OnLeftEdge <==> -Eps < dl <= Eps && dr <= Eps
    ensures Land(Fin(dl), Fin(dr), hasRight) == OnRightEdge <==> dl <= -Eps && -Eps < dr <= Eps
    ensures Land(Fin(dl), Fin(dr), hasRight) == Inside <==> dl <= -Eps && dr <= -Eps
    ensures Land(Fin(dl), Fin(dr), hasRight) in {GoRight, AfterLast} <==> dl <= Eps && dr > Eps
  {
  }
}
