/**
 * The pure part of finishing the diagram at the bounding box (src/Voronoi.js,
 * connectEdge and clipEdge): where a dangling edge is connected to the box, and the
 * Liang–Barsky clipping of a finished edge to the box.  The engine (module Fortune)
 * applies these outcomes to its edges, vertices and cells.
 */
module Clipping {
  import opened Wrappers
  import opened Points
  import opened Sites
  import opened Edges
  import opened Epsilon

  /** The sides of the bounding box, as connectEdge and clipEdge read them from the Rect. */
  datatype Bounds = Bounds(left: real, right: real, top: real, bottom: real)

  /** `p` is inside the box or on its boundary (y grows downward, so `top` is the smaller y). */
  predicate InBox(p: Pt, box: Bounds)
  {
    box.left <= p.x <= box.right && box.top <= p.y <= box.bottom
  }

  /** `p` lies on the line of one of the four sides. */
  predicate OnSide(p: Pt, box: Bounds)
  {
    p.x == box.left || p.x == box.right || p.y == box.top || p.y == box.bottom
  }

  /** `p` is as far from `l` as from `r`: it lies on the bisector of the two sites. */
  predicate Equidistant(p: Pt, l: Site, r: Site)
  {
    SquaredLength(Minus(p, l.Pos())) == SquaredLength(Minus(p, r.Pos()))
  }

  // ---------------------------------------------------------------------------
  // connectEdge

  /**
   * What connectEdge does to an edge with no end vertex: `Outside` when it returns false;
   * otherwise the new start (`None` when the start vertex is kept) and the new end.
   */
  datatype Link = Outside | Link(start: Option<Pt>, end: Pt)

  /**
   * Voronoi.connectEdge, from the point where `edge.vb` is known to be missing: the edge
   * between `l` and `r`, whose start is at `va` when it has one, is connected to the box.
   * A vertical bisector meets the top and bottom; a steep one (|slope| > 1) too; a flat
   * one the left and right sides.  The direction follows the sites, and the edge is
   * given up when its start is already past the side where its end would go.
   */
  function Connect(l: Site, r: Site, va: Option<Pt>, box: Bounds): (k: Link)
    ensures k.Link? ==> OnSide(k.end, box)
    ensures k.Link? && k.start.None? ==> va.Some?
  {
    var f := Midpoint(l, r);
    if BisectorVertical(l, r) then
      if f.x < box.left || f.x >= box.right then Outside
      else if Downward(l, r) then
        if va.None? || va.value.y < box.top then Link(Some(Pt(f.x, box.top)), Pt(f.x, box.bottom))
        else if va.value.y >= box.bottom then Outside
        else Link(None, Pt(f.x, box.bottom))
      else
        if va.None? || va.value.y > box.bottom then Link(Some(Pt(f.x, box.bottom)), Pt(f.x, box.top))
        else if va.value.y < box.top then Outside
        else Link(None, Pt(f.x, box.top))
    else
      var line := Bisector(l, r);
      var fm, fb := line.slope, line.yIntercept;
      if fm < -1.0 || fm > 1.0 then
        if l.x > r.x then
          if va.None? || va.value.y < box.top then Link(Some(Pt((box.top - fb) / fm, box.top)), Pt((box.bottom - fb) / fm, box.bottom))
          else if va.value.y >= box.bottom then Outside
          else Link(None, Pt((box.bottom - fb) / fm, box.bottom))
        else
          if va.None? || va.value.y > box.bottom then Link(Some(Pt((box.bottom - fb) / fm, box.bottom)), Pt((box.top - fb) / fm, box.top))
          else if va.value.y < box.top then Outside
          else Link(None, Pt((box.top - fb) / fm, box.top))
      else
        if l.y < r.y then
          if va.None? || va.value.x < box.left then Link(Some(Pt(box.left, fm * box.left + fb)), Pt(box.right, fm * box.right + fb))
          else if va.value.x >= box.right then Outside
          else Link(None, Pt(box.right, fm * box.right + fb))
        else
          if va.None? || va.value.x > box.right then Link(Some(Pt(box.right, fm * box.right + fb)), Pt(box.left, fm * box.left + fb))
          else if va.value.x < box.left then Outside
          else Link(None, Pt(box.left, fm * box.left + fb))
  }

  /** Every point connectEdge creates lies on a box side and on the bisector of the edge's two sites. */
  lemma ConnectOnBisector(l: Site, r: Site, va: Option<Pt>, box: Bounds)
    requires Connect(l, r, va, box).Link?
    ensures var k := Connect(l, r, va, box);
      OnSide(k.end, box) && Equidistant(k.end, l, r) &&
      (k.start.Some? ==> OnSide(k.start.value, box) && Equidistant(k.start.value, l, r))
  {
    var k := Connect(l, r, va, box);
    ConnectCandidates(l, r, va, box);
    CandidateEquidistant(l, r, box, k.end);
    if k.start.Some? {
      CandidateEquidistant(l, r, box, k.start.value);
    }
  }

  /** The points connectEdge may place: where the bisector meets the line of a box side. */
  predicate Candidate(l: Site, r: Site, box: Bounds, p: Pt)
  {
    if BisectorVertical(l, r) then p == Pt(Midpoint(l, r).x, box.top) || p == Pt(Midpoint(l, r).x, box.bottom)
    else
      var fm, fb := Bisector(l, r).slope, Bisector(l, r).yIntercept;
      if fm < -1.0 || fm > 1.0 then p == Pt((box.top - fb) / fm, box.top) || p == Pt((box.bottom - fb) / fm, box.bottom)
      else p == Pt(box.left, fm * box.left + fb) || p == Pt(box.right, fm * box.right + fb)
  }

  /** The points connectEdge places are among the candidates. */
  lemma ConnectCandidates(l: Site, r: Site, va: Option<Pt>, box: Bounds)
    requires Connect(l, r, va, box).Link?
    ensures var k := Connect(l, r, va, box);
      Candidate(l, r, box, k.end) && (k.start.Some? ==> Candidate(l, r, box, k.start.value))
  {
  }

  /** Every candidate is on the bisector. */
  lemma CandidateEquidistant(l: Site, r: Site, box: Bounds, p: Pt)
    requires Candidate(l, r, box, p)
    ensures Equidistant(p, l, r)
  {
    if BisectorVertical(l, r) {
      VerticalEquidistant(l, r, p.y);
    } else {
      var fm, fb := Bisector(l, r).slope, Bisector(l, r).yIntercept;
      if fm < -1.0 || fm > 1.0 {
        SteepPoint(l, r, p.y);
      } else {
        BisectorEquidistant(l, r, p.x);
      }
    }
  }

  /** With level sites, every point straight above or below their midpoint is on the bisector. */
  lemma VerticalEquidistant(l: Site, r: Site, y: real)
    requires BisectorVertical(l, r)
    ensures Equidistant(Pt(Midpoint(l, r).x, y), l, r)
  {
  }

  /** On a steep bisector, the point at height `y` is `((y - b) / m, y)`, and it is on the bisector. */
  lemma SteepPoint(l: Site, r: Site, y: real)
    requires !BisectorVertical(l, r)
    requires Bisector(l, r).slope < -1.0 || Bisector(l, r).slope > 1.0
    ensures var line := Bisector(l, r);
      Equidistant(Pt((y - line.yIntercept) / line.slope, y), l, r)
  {
    var line := Bisector(l, r);
    var x := (y - line.yIntercept) / line.slope;
    assert line.slope * x + line.yIntercept == y;
    BisectorEquidistant(l, r, x);
  }

  /**
   * When connectEdge gives the edge up: a vertical bisector outside [left, right), or a
   * start already beyond the side the end would go to.  Both directions are stated.
   */
  lemma ConnectRejects(l: Site, r: Site, va: Option<Pt>, box: Bounds)
    ensures Connect(l, r, va, box) == Outside <==>
      if BisectorVertical(l, r) then
        var f := Midpoint(l, r);
        f.x < box.left || f.x >= box.right ||
        (va.Some? && (if Downward(l, r) then box.top <= va.value.y && va.value.y >= box.bottom
                      else va.value.y <= box.bottom && va.value.y < box.top))
      else if Bisector(l, r).slope < -1.0 || Bisector(l, r).slope > 1.0 then
        va.Some? && (if l.x > r.x then box.top <= va.value.y && va.value.y >= box.bottom
                     else va.value.y <= box.bottom && va.value.y < box.top)
      else
        va.Some? && (if l.y < r.y then box.left <= va.value.x && va.value.x >= box.right
                     else va.value.x <= box.right && va.value.x < box.left)
  {
  }

  /** A vertical bisector that is kept crosses the box: its x is within [left, right). */
  lemma ConnectVerticalInside(l: Site, r: Site, va: Option<Pt>, box: Bounds)
    requires BisectorVertical(l, r) && Connect(l, r, va, box).Link?
    ensures box.left <= Midpoint(l, r).x < box.right
    ensures Connect(l, r, va, box).end.x == Midpoint(l, r).x
  {
  }

  // ---------------------------------------------------------------------------
  // clipEdge (Liang–Barsky)

  /** The parameter window `[t0, t1]` of the segment still inside, or the segment rejected. */
  datatype Window = Rejected | Window(t0: real, t1: real)

  /**
   * One Liang–Barsky step: cut the window down to the parameters `t` with `c + t d >= 0`.
   * The left, right, top and bottom tests of clipEdge are this step with (c, d) equal to
   * (ax - left, dx), (right - ax, -dx), (ay - top, dy) and (bottom - ay, -dy).
   */
  function Step(c: real, d: real, w: Window): Window
  {
    match w
    case Rejected => Rejected
    case Window(t0, t1) =>
      if d == 0.0 then (if c < 0.0 then Rejected else w)
      else
        var r := -c / d;
        if d > 0.0 then (if r > t1 then Rejected else Window(if r > t0 then r else t0, t1))
        else (if r < t0 then Rejected else Window(t0, if r < t1 then r else t1))
  }

  /** The point at parameter `t` of the segment from `a` to `b`. */
  function PointAt(a: Pt, b: Pt, t: real): (p: Pt)
    ensures t == 0.0 ==> p == a
    ensures t == 1.0 ==> p == b
  {
    Pt(a.x + t * (b.x - a.x), a.y + t * (b.y - a.y))
  }

  /** Voronoi.clipEdge's parameter computation for the segment from `a` to `b`. */
  function LiangBarsky(a: Pt, b: Pt, box: Bounds): Window
  {
    var dx, dy := b.x - a.x, b.y - a.y;
    Step(box.bottom - a.y, -dy, Step(a.y - box.top, dy, Step(box.right - a.x, -dx, Step(a.x - box.left, dx, Window(0.0, 1.0)))))
  }

  /**
   * A step keeps exactly the parameters of its window that satisfy its constraint: for
   * `t` in the old window, `c + t d >= 0` holds iff `t` is in the new one.
   */
  lemma StepExact(c: real, d: real, t0: real, t1: real, t: real)
    requires t0 <= t <= t1
    ensures var w := Step(c, d, Window(t0, t1));
      c + t * d >= 0.0 <==> w.Window? && w.t0 <= t <= w.t1
  {
    if d > 0.0 {
      var r := -c / d;
      assert r * d == -c;
      assert c + t * d >= 0.0 <==> t >= r by {
        assert c + t * d == (t - r) * d;
      }
    } else if d < 0.0 {
      var r := -c / d;
      assert r * d == -c;
      assert c + t * d >= 0.0 <==> t <= r by {
        assert c + t * d == (r - t) * (-d);
      }
    }
  }

  /** A step only narrows a window and never turns it inside out. */
  lemma StepNarrows(c: real, d: real, t0: real, t1: real)
    requires t0 <= t1
    ensures var w := Step(c, d, Window(t0, t1));
      w.Window? ==> t0 <= w.t0 <= w.t1 <= t1
  {
  }

  /** The four constraints `c + t d >= 0` of clipEdge hold at `t`. */
  predicate AllHold(c1: real, d1: real, c2: real, d2: real, c3: real, d3: real, c4: real, d4: real, t: real)
  {
    c1 + t * d1 >= 0.0 && c2 + t * d2 >= 0.0 && c3 + t * d3 >= 0.0 && c4 + t * d4 >= 0.0
  }

  /** The constraints of clipEdge for the segment from `a` to `b` hold at `t`. */
  predicate Kept(a: Pt, b: Pt, box: Bounds, t: real)
  {
    AllHold(a.x - box.left, b.x - a.x, box.right - a.x, -(b.x - a.x), a.y - box.top, b.y - a.y, box.bottom - a.y, -(b.y - a.y), t)
  }

  /** The four constraints say that the point at `t` is in the box. */
  lemma KeptInBox(a: Pt, b: Pt, box: Bounds, t: real)
    ensures Kept(a, b, box, t) <==> InBox(PointAt(a, b, t), box)
  {
  }

  /** The window `w` is well formed and holds `t` exactly when `p` does. */
  predicate Tracks(w: Window, t: real, p: bool)
  {
    (w.Window? ==> w.t0 <= w.t1) && (p <==> w.Window? && w.t0 <= t <= w.t1)
  }

  /** A step adds its constraint to what the window tracks. */
  lemma StepTracks(c: real, d: real, w: Window, t: real, p: bool)
    requires Tracks(w, t, p)
    ensures Tracks(Step(c, d, w), t, p && c + t * d >= 0.0)
  {
    if w.Window? {
      StepNarrows(c, d, w.t0, w.t1);
      if w.t0 <= t <= w.t1 {
        StepExact(c, d, w.t0, w.t1, t);
      }
    }
  }

  /** Four steps from [0, 1] track the four constraints together. */
  lemma {:induction false} FourSteps(c1: real, d1: real, c2: real, d2: real, c3: real, d3: real, c4: real, d4: real, t: real)
    requires 0.0 <= t <= 1.0
    ensures Tracks(Step(c4, d4, Step(c3, d3, Step(c2, d2, Step(c1, d1, Window(0.0, 1.0))))), t,
                   AllHold(c1, d1, c2, d2, c3, d3, c4, d4, t))
  {
    var w0 := Window(0.0, 1.0);
    StepTracks(c1, d1, w0, t, true);
    var w1 := Step(c1, d1, w0);
    StepTracks(c2, d2, w1, t, c1 + t * d1 >= 0.0);
    var w2 := Step(c2, d2, w1);
    StepTracks(c3, d3, w2, t, c1 + t * d1 >= 0.0 && c2 + t * d2 >= 0.0);
    var w3 := Step(c3, d3, w2);
    StepTracks(c4, d4, w3, t, c1 + t * d1 >= 0.0 && c2 + t * d2 >= 0.0 && c3 + t * d3 >= 0.0);
  }

  /**
   * Liang–Barsky is exact: a parameter in [0, 1] is in the window clipEdge computes iff
   * the segment's point there is inside the box.  A rejected segment has no point inside.
   */
  lemma LiangBarskyExact(a: Pt, b: Pt, box: Bounds, t: real)
    requires 0.0 <= t <= 1.0
    ensures var w := LiangBarsky(a, b, box);
      InBox(PointAt(a, b, t), box) <==> w.Window? && w.t0 <= t <= w.t1
  {
    FourSteps(a.x - box.left, b.x - a.x, box.right - a.x, -(b.x - a.x), a.y - box.top, b.y - a.y, box.bottom - a.y, -(b.y - a.y), t);
    KeptInBox(a, b, box, t);
  }

  /** The window clipEdge computes lies within [0, 1] and is not empty. */
  lemma {:induction false} LiangBarskyBounds(a: Pt, b: Pt, box: Bounds)
    ensures var w := LiangBarsky(a, b, box); w.Window? ==> 0.0 <= w.t0 <= w.t1 <= 1.0
  {
    var dx, dy := b.x - a.x, b.y - a.y;
    var w1 := Step(a.x - box.left, dx, Window(0.0, 1.0));
    var w2 := Step(box.right - a.x, -dx, w1);
    var w3 := Step(a.y - box.top, dy, w2);
    StepNarrows(a.x - box.left, dx, 0.0, 1.0);
    if w1.Window? {
      StepNarrows(box.right - a.x, -dx, w1.t0, w1.t1);
      if w2.Window? {
        StepNarrows(a.y - box.top, dy, w2.t0, w2.t1);
        if w3.Window? {
          StepNarrows(box.bottom - a.y, -dy, w3.t0, w3.t1);
        }
      }
    }
  }

  /**
   * The clipped edge is inside the box: both ends of the window map to points in the
   * box.  A segment with both ends in the box is left whole (the window is [0, 1]).
   */
  lemma ClippedInside(a: Pt, b: Pt, box: Bounds)
    ensures var w := LiangBarsky(a, b, box);
      w.Window? ==> InBox(PointAt(a, b, w.t0), box) && InBox(PointAt(a, b, w.t1), box)
    ensures InBox(a, box) && InBox(b, box) ==> LiangBarsky(a, b, box) == Window(0.0, 1.0)
  {
    var w := LiangBarsky(a, b, box);
    LiangBarskyBounds(a, b, box);
    if w.Window? {
      LiangBarskyExact(a, b, box, w.t0);
      LiangBarskyExact(a, b, box, w.t1);
    }
    if InBox(a, box) && InBox(b, box) {
      LiangBarskyExact(a, b, box, 0.0);
      LiangBarskyExact(a, b, box, 1.0);
    }
  }

  // ---------------------------------------------------------------------------
  // clipEdges: what becomes of one edge

  /**
   * The two ends connectEdge leaves on an edge between `l` and `r` whose ends are at `a`
   * and `b` when set: the same ends when `b` is already set, else the ends `Connect`
   * gives; none when the edge is given up.
   */
  function Connected(l: Site, r: Site, a: Option<Pt>, b: Option<Pt>, box: Bounds): (s: Option<(Pt, Pt)>)
    requires b.Some? ==> a.Some?
  {
    if b.Some? then Some((a.value, b.value))
    else match Connect(l, r, a, box)
      case Outside => None
      case Link(start, end) => Some((if start.Some? then start.value else a.value, end))
  }

  /**
   * The two ends clipEdge leaves on the segment from `a` to `b`: the start moved to the
   * window's start when that is past 0, the end moved to the window's end when that is
   * short of 1; none when the segment misses the box.
   */
  function Clipped(a: Pt, b: Pt, box: Bounds): (s: Option<(Pt, Pt)>)
  {
    match LiangBarsky(a, b, box)
    case Rejected => None
    case Window(t0, t1) => Some((if t0 > 0.0 then PointAt(a, b, t0) else a, if t1 < 1.0 then PointAt(a, b, t1) else b))
  }

  /** The segment from `a` to `b` looks like a point: both coordinates differ by less than ε. */
  predicate PointLike(a: Pt, b: Pt)
  {
    EqualWithEpsilon(a.x, b.x) && EqualWithEpsilon(a.y, b.y)
  }

  /**
   * What clipEdges makes of the edge between `l` and `r` with ends at `a` and `b` (when
   * set): the ends it keeps, or none when connectEdge or clipEdge gives it up or what
   * is left looks like a point.
   */
  function Fate(l: Site, r: Site, a: Option<Pt>, b: Option<Pt>, box: Bounds): (s: Option<(Pt, Pt)>)
    requires b.Some? ==> a.Some?
  {
    match Connected(l, r, a, b, box)
    case None => None
    case Some(ends) => Trimmed(ends.0, ends.1, box)
  }

  /** What clipEdges keeps of the connected segment from `a` to `b`: its clipped ends, unless it is missed or point-like. */
  function Trimmed(a: Pt, b: Pt, box: Bounds): (s: Option<(Pt, Pt)>)
  {
    match Clipped(a, b, box)
    case None => None
    case Some(c) => if PointLike(c.0, c.1) then None else Some(c)
  }

  /** The ends clipEdge keeps are in the box, and a segment already inside is kept whole. */
  lemma ClippedInBox(a: Pt, b: Pt, box: Bounds)
    ensures var c := Clipped(a, b, box); c.Some? ==> InBox(c.value.0, box) && InBox(c.value.1, box)
    ensures InBox(a, box) && InBox(b, box) ==> Clipped(a, b, box) == Some((a, b))
  {
    ClippedInside(a, b, box);
    LiangBarskyBounds(a, b, box);
  }

  /**
   * Every edge clipEdges keeps has both ends in the box and is longer than ε in some
   * coordinate; an edge with both ends set, inside the box and not point-like is kept
   * as it is.
   */
  lemma FateInBox(l: Site, r: Site, a: Option<Pt>, b: Option<Pt>, box: Bounds)
    requires b.Some? ==> a.Some?
    ensures var f := Fate(l, r, a, b, box);
      f.Some? ==> InBox(f.value.0, box) && InBox(f.value.1, box) && !PointLike(f.value.0, f.value.1)
    ensures a.Some? && b.Some? && InBox(a.value, box) && InBox(b.value, box) && !PointLike(a.value, b.value) ==>
      Fate(l, r, a, b, box) == Some((a.value, b.value))
  {
    var ends := Connected(l, r, a, b, box);
    if ends.Some? {
      ClippedInBox(ends.value.0, ends.value.1, box);
    }
  }

  /** The left-hand side of the bisector's linear equation at `p`: the dot product of `p` with `r - l`. */
  function Level(p: Pt, l: Site, r: Site): real
  {
    p.x * (r.x - l.x) + p.y * (r.y - l.y)
  }

  /** Half of `|r|^2 - |l|^2`: the right-hand side of the bisector's linear equation. */
  function BisectorLevel(l: Site, r: Site): real
  {
    (r.x * r.x + r.y * r.y - l.x * l.x - l.y * l.y) / 2.0
  }

  /** A point is on the bisector of `l` and `r` exactly when it satisfies the bisector's linear equation. */
  lemma EquidistantLinear(p: Pt, l: Site, r: Site)
    ensures Equidistant(p, l, r) <==> Level(p, l, r) == BisectorLevel(l, r)
  {
    assert SquaredLength(Minus(p, l.Pos())) - SquaredLength(Minus(p, r.Pos()))
      == 2.0 * (p.x * (r.x - l.x) + p.y * (r.y - l.y)) - (r.x * r.x + r.y * r.y - l.x * l.x - l.y * l.y);
  }

  /** The level is affine along a segment: at parameter `t` it is the start's plus `t` times the change. */
  lemma {:induction false} LevelAt(a: Pt, b: Pt, t: real, l: Site, r: Site)
    ensures Level(PointAt(a, b, t), l, r) == Level(a, l, r) + t * (Level(b, l, r) - Level(a, l, r))
  {
    var dx, dy := r.x - l.x, r.y - l.y;
    var ex, ey := b.x - a.x, b.y - a.y;
    assert (a.x + t * ex) * dx == a.x * dx + t * (ex * dx);
    assert (a.y + t * ey) * dy == a.y * dy + t * (ey * dy);
    assert Level(b, l, r) - Level(a, l, r) == ex * dx + ey * dy;
  }

  /** A point between two points of the bisector is on the bisector. */
  lemma {:induction false} PointAtEquidistant(a: Pt, b: Pt, t: real, l: Site, r: Site)
    requires Equidistant(a, l, r) && Equidistant(b, l, r)
    ensures Equidistant(PointAt(a, b, t), l, r)
  {
    EquidistantLinear(a, l, r);
    EquidistantLinear(b, l, r);
    LevelAt(a, b, t, l, r);
    assert t * (Level(b, l, r) - Level(a, l, r)) == 0.0;
    assert Level(PointAt(a, b, t), l, r) == BisectorLevel(l, r);
    EquidistantLinear(PointAt(a, b, t), l, r);
  }

  /**
   * Connecting and clipping keep an edge on its bisector: when its ends (those that are
   * set) are as far from `l` as from `r`, so are the ends clipEdges keeps.
   */
  lemma {:induction false} FateOnBisector(l: Site, r: Site, a: Option<Pt>, b: Option<Pt>, box: Bounds)
    requires b.Some? ==> a.Some?
    requires a.Some? ==> Equidistant(a.value, l, r)
    requires b.Some? ==> Equidistant(b.value, l, r)
    ensures var f := Fate(l, r, a, b, box);
      f.Some? ==> Equidistant(f.value.0, l, r) && Equidistant(f.value.1, l, r)
  {
    var ends := Connected(l, r, a, b, box);
    if ends.Some? {
      if b.None? {
        ConnectOnBisector(l, r, a, box);
      }
      var p, q := ends.value.0, ends.value.1;
      assert Equidistant(p, l, r) && Equidistant(q, l, r);
      match LiangBarsky(p, q, box)
      case Rejected =>
      case Window(t0, t1) =>
        PointAtEquidistant(p, q, t0, l, r);
        PointAtEquidistant(p, q, t1, l, r);
    }
  }
}
