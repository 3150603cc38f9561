/**
 * src/Cell.js: the cell of one site, bounded by a list of half-edges.
 *
 * A half-edge (src/HalfEdge.js, not part of this model) is one side of an edge seen
 * from a site; it carries the edge (by number), its site, the site across the edge
 * and the angle it was created with.  Where a cell operation needs more of a
 * half-edge or of its edge (the edge's sites and endpoints, the half-edge's start
 * and end points) the caller passes the lookup as a function.
 *
 * `CellState` is what a cell holds.  The loops over the half-edges are module-level
 * methods on sequences, used both by the `Cell` class and by the sweep, which keeps
 * its cells as values.
 */
module Cells {
  import opened Wrappers
  import opened Points
  import opened Sites
  import opened Extended
  import opened Edges

  datatype HalfEdge = HalfEdge(edge: nat, site: Site, other: Option<Site>, angle: real)

  datatype CellState = CellState(site: Site, halfEdges: seq<HalfEdge>, closeMe: bool)

  /** Cell.constructor / Cell.init: the cell of `site` with no half-edges, not marked for closing. */
  function Blank(site: Site): (c: CellState)
    ensures c.site == site && c.halfEdges == [] && !c.closeMe
  {
    CellState(site, [], false)
  }

  /** `c1` has as many cells as `c0`, with the same sites in the same places. */
  predicate SameSites(c0: seq<CellState>, c1: seq<CellState>)
  {
    |c1| == |c0| && forall i :: 0 <= i < |c0| ==> c1[i].site == c0[i].site
  }

  /** The half-edge's edge has both endpoints. */
  predicate Complete(edgeOf: nat -> EdgeState<nat>, h: HalfEdge)
  {
    edgeOf(h.edge).va.Some? && edgeOf(h.edge).vb.Some?
  }

  /** The half-edges of `hs` whose edge has both endpoints, in their order. */
  function KeepComplete(edgeOf: nat -> EdgeState<nat>, hs: seq<HalfEdge>): (r: seq<HalfEdge>)
    ensures |r| <= |hs|
    ensures forall h :: h in r <==> h in hs && Complete(edgeOf, h)
  {
    if hs == [] then []
    else (if Complete(edgeOf, hs[0]) then [hs[0]] else []) + KeepComplete(edgeOf, hs[1..])
  }

  /** Angles never increase along `hs`. */
  predicate SortedByAngle(hs: seq<HalfEdge>)
  {
    forall i, j :: 0 <= i < j < |hs| ==> hs[i].angle >= hs[j].angle
  }

  /** `h` put into the angle-sorted `hs` before the first half-edge whose angle is not larger. */
  function InsertByAngle(h: HalfEdge, hs: seq<HalfEdge>): (r: seq<HalfEdge>)
    requires SortedByAngle(hs)
    ensures SortedByAngle(r)
    ensures multiset(r) == multiset(hs) + multiset{h}
  {
    if hs == [] || h.angle >= hs[0].angle then
      HeadBound(h, hs);
      SortedCons(h, hs);
      [h] + hs
    else
      var rest := InsertByAngle(h, hs[1..]);
      assert hs == [hs[0]] + hs[1..];
      HeadBound(hs[0], hs[1..]);
      SortedCons(hs[0], rest);
      [hs[0]] + rest
  }

  /** In an angle-sorted sequence, a half-edge whose angle is at least the first one's bounds them all. */
  lemma HeadBound(x: HalfEdge, s: seq<HalfEdge>)
    requires SortedByAngle(s) && (s == [] || x.angle >= s[0].angle)
    ensures forall g :: g in multiset(s) ==> x.angle >= g.angle
  {
    forall g | g in multiset(s) ensures x.angle >= g.angle {
      var k :| 0 <= k < |s| && s[k] == g;
    }
  }

  /** A half-edge whose angle bounds every angle of a sorted sequence can go in front of it. */
  lemma SortedCons(x: HalfEdge, s: seq<HalfEdge>)
    requires SortedByAngle(s) && forall g :: g in multiset(s) ==> x.angle >= g.angle
    ensures SortedByAngle([x] + s)
  {
    forall i, j | 0 <= i < j < |[x] + s| ensures ([x] + s)[i].angle >= ([x] + s)[j].angle {
      if i == 0 {
        assert s[j - 1] in multiset(s);
      }
    }
  }

  /** The half-edges of `hs` ordered by non-increasing angle (Array.prototype.sort with `b.angle - a.angle`). */
  function SortByAngle(hs: seq<HalfEdge>): (r: seq<HalfEdge>)
    ensures SortedByAngle(r)
    ensures multiset(r) == multiset(hs)
  {
    if hs == [] then []
    else
      assert hs == [hs[0]] + hs[1..];
      InsertByAngle(hs[0], SortByAngle(hs[1..]))
  }

  /** The half-edges of `hs` whose angle is `a`, in their order. */
  function AtAngle(hs: seq<HalfEdge>, a: real): (r: seq<HalfEdge>)
    ensures |r| <= |hs|
    ensures forall k :: 0 <= k < |r| ==> r[k].angle == a
  {
    if hs == [] then []
    else (if hs[0].angle == a then [hs[0]] else []) + AtAngle(hs[1..], a)
  }

  /** Picking one angle from a sequence with a head: the head, if of that angle, then the pick from the rest. */
  lemma AtAngleCons(x: HalfEdge, t: seq<HalfEdge>, a: real)
    ensures AtAngle([x] + t, a) == (if x.angle == a then [x] else []) + AtAngle(t, a)
  {
    assert ([x] + t)[1..] == t;
  }

  /** The two cases of InsertByAngle: in front, or after the head of `hs`, whose tail stays sorted. */
  lemma InsertByAngleUnfold(h: HalfEdge, hs: seq<HalfEdge>)
    requires SortedByAngle(hs)
    ensures hs == [] || h.angle >= hs[0].angle ==> InsertByAngle(h, hs) == [h] + hs
    ensures hs != [] && h.angle < hs[0].angle ==>
      SortedByAngle(hs[1..]) && InsertByAngle(h, hs) == [hs[0]] + InsertByAngle(h, hs[1..]) && hs == [hs[0]] + hs[1..]
  {
  }

  /** Inserting by angle puts `h` in front of the half-edges of equal angle and keeps their order. */
  lemma {:induction false} InsertByAngleAtAngle(h: HalfEdge, hs: seq<HalfEdge>, a: real)
    requires SortedByAngle(hs)
    ensures AtAngle(InsertByAngle(h, hs), a) == (if h.angle == a then [h] else []) + AtAngle(hs, a)
  {
    InsertByAngleUnfold(h, hs);
    if hs == [] || h.angle >= hs[0].angle {
      AtAngleCons(h, hs, a);
    } else {
      var rest := InsertByAngle(h, hs[1..]);
      InsertByAngleAtAngle(h, hs[1..], a);
      AtAngleCons(hs[0], rest, a);
      AtAngleCons(hs[0], hs[1..], a);
      PickAround(hs[0], a, AtAngle(rest, a), if h.angle == a then [h] else [], AtAngle(hs[1..], a));
    }
  }

  /**
   * The pick of one angle from a head `x` and a rest whose pick is `front + tail`, when
   * `front` is empty or `x` is not of that angle: `front`, then the pick of the head and `tail`.
   */
  lemma PickAround(x: HalfEdge, a: real, pick: seq<HalfEdge>, front: seq<HalfEdge>, tail: seq<HalfEdge>)
    requires pick == front + tail && (front == [] || x.angle != a)
    ensures (if x.angle == a then [x] else []) + pick == front + ((if x.angle == a then [x] else []) + tail)
  {
    if front == [] {
      assert front + ((if x.angle == a then [x] else []) + tail) == (if x.angle == a then [x] else []) + tail;
    }
  }

  /**
   * SortByAngle is stable, as the JavaScript sort is: for every angle, the half-edges
   * of that angle come out in their input order.
   */
  lemma {:induction false} SortByAngleStable(hs: seq<HalfEdge>, a: real)
    ensures AtAngle(SortByAngle(hs), a) == AtAngle(hs, a)
  {
    if hs != [] {
      SortByAngleStable(hs[1..], a);
      InsertByAngleAtAngle(hs[0], SortByAngle(hs[1..]), a);
    }
  }

  /**
   * The pruning loop of Cell.prepareHalfEdges: walking down from the end, splice out
   * every half-edge whose edge lacks an endpoint.
   */
  method Prune(edgeOf: nat -> EdgeState<nat>, hs: seq<HalfEdge>) returns (r: seq<HalfEdge>)
    ensures r == KeepComplete(edgeOf, hs)
  {
    r := hs;
    var i := |hs|;
    while i > 0
      invariant 0 <= i <= |hs|
      invariant r == hs[..i] + KeepComplete(edgeOf, hs[i..])
    {
      i := i - 1;
      PruneStep(edgeOf, hs, i, r);
      if !Complete(edgeOf, r[i]) {
        r := r[..i] + r[i + 1..];
      }
    }
    assert hs[0..] == hs;
  }

  /** One step of Prune, down from position `i + 1` to `i`: the half-edge there is spliced out exactly when it is incomplete. */
  lemma PruneStep(edgeOf: nat -> EdgeState<nat>, hs: seq<HalfEdge>, i: nat, r: seq<HalfEdge>)
    requires i < |hs| && r == hs[..i + 1] + KeepComplete(edgeOf, hs[i + 1..])
    ensures i < |r| && r[i] == hs[i]
    ensures !Complete(edgeOf, hs[i]) ==> r[..i] + r[i + 1..] == hs[..i] + KeepComplete(edgeOf, hs[i..])
    ensures Complete(edgeOf, hs[i]) ==> r == hs[..i] + KeepComplete(edgeOf, hs[i..])
  {
    var k := KeepComplete(edgeOf, hs[i + 1..]);
    assert KeepComplete(edgeOf, hs[i..]) == (if Complete(edgeOf, hs[i]) then [hs[i]] else []) + k by {
      var t := hs[i..];
      assert t[0] == hs[i] && t[1..] == hs[i + 1..];
    }
    assert r == hs[..i] + ([hs[i]] + k) by {
      assert hs[..i + 1] == hs[..i] + [hs[i]];
    }
    if !Complete(edgeOf, hs[i]) {
      assert r[..i] == hs[..i];
      assert r[i + 1..] == k;
    }
  }

  /**
   * Cell.prepareHalfEdges on a list of half-edges: drop those whose edge lacks an
   * endpoint, sort the rest by non-increasing angle, and give their number.
   */
  method PrepareList(edgeOf: nat -> EdgeState<nat>, hs: seq<HalfEdge>) returns (r: seq<HalfEdge>, n: nat)
    ensures r == SortByAngle(KeepComplete(edgeOf, hs)) && n == |r|
    ensures SortedByAngle(r) && multiset(r) == multiset(KeepComplete(edgeOf, hs))
  {
    r := Prune(edgeOf, hs);
    r := SortByAngle(r);
    n := |r|;
  }

  /**
   * The id Cell.getNeighborIds takes from one half-edge: the edge's left site's
   * `voronoiId` when there is a left site and its id differs from the cell's, otherwise
   * the right site's under the same test, otherwise nothing.
   */
  function NeighborOf(edgeOf: nat -> EdgeState<nat>, vid: Site -> Option<nat>, own: Site, h: HalfEdge): (r: seq<Option<nat>>)
    ensures |r| <= 1
    ensures forall k :: 0 <= k < |r| ==> r[k] != vid(own)
  {
    var e := edgeOf(h.edge);
    if e.left.Some? && vid(e.left.value) != vid(own) then [vid(e.left.value)]
    else if e.right.Some? && vid(e.right.value) != vid(own) then [vid(e.right.value)]
    else []
  }

  /** The neighbour ids of the half-edges `hs`, taken from the last half-edge to the first. */
  function NeighborsOf(edgeOf: nat -> EdgeState<nat>, vid: Site -> Option<nat>, own: Site, hs: seq<HalfEdge>): (r: seq<Option<nat>>)
    ensures |r| <= |hs|
    ensures forall k :: 0 <= k < |r| ==> r[k] != vid(own)
  {
    if hs == [] then []
    else NeighborOf(edgeOf, vid, own, hs[|hs| - 1]) + NeighborsOf(edgeOf, vid, own, hs[..|hs| - 1])
  }

  /** Cell.getNeighborIds on the half-edges `hs` of the cell of `own`. */
  method NeighborIds(edgeOf: nat -> EdgeState<nat>, vid: Site -> Option<nat>, own: Site, hs: seq<HalfEdge>)
    returns (neighbors: seq<Option<nat>>)
    ensures neighbors == NeighborsOf(edgeOf, vid, own, hs)
    ensures |neighbors| <= |hs| && forall k :: 0 <= k < |neighbors| ==> neighbors[k] != vid(own)
  {
    neighbors := [];
    var i := |hs|;
    assert hs[..i] == hs;
    while i > 0
      invariant 0 <= i <= |hs|
      invariant neighbors + NeighborsOf(edgeOf, vid, own, hs[..i]) == NeighborsOf(edgeOf, vid, own, hs)
    {
      i := i - 1;
      ghost var before := neighbors;
      ghost var pick := NeighborOf(edgeOf, vid, own, hs[i]);
      assert hs[..i + 1][..i] == hs[..i] && hs[..i + 1][i] == hs[i];
      assert NeighborsOf(edgeOf, vid, own, hs[..i + 1]) == pick + NeighborsOf(edgeOf, vid, own, hs[..i]);
      var e := edgeOf(hs[i].edge);
      if e.left.Some? && vid(e.left.value) != vid(own) {
        neighbors := neighbors + [vid(e.left.value)];
      } else if e.right.Some? && vid(e.right.value) != vid(own) {
        neighbors := neighbors + [vid(e.right.value)];
      }
      assert neighbors == before + pick;
      Associative(before, pick, NeighborsOf(edgeOf, vid, own, hs[..i]));
    }
  }

  /** Concatenation is associative: a proof step of NeighborIds. */
  lemma Associative<T>(a: seq<T>, b: seq<T>, c: seq<T>)
    ensures (a + b) + c == a + (b + c)
  {
  }

  /** A box `x, y, width, height` whose numbers may be infinite, as Cell.getBbox returns it. */
  datatype Box = Box(x: Ext, y: Ext, width: Ext, height: Ext)

  /**
   * Cell.getBbox on the half-edges `hs`: the smallest box holding every start point.
   * With no half-edge the running bounds stay at their starting infinities.
   */
  method BoundingBox(start: HalfEdge -> Pt, hs: seq<HalfEdge>) returns (box: Box)
    ensures hs == [] ==> box == Box(PosInf, PosInf, NegInf, NegInf)
    ensures hs != [] ==> box.x.Fin? && box.y.Fin? && box.width.Fin? && box.height.Fin?
    ensures hs != [] ==> forall h :: h in hs ==>
      box.x.v <= start(h).x <= box.x.v + box.width.v && box.y.v <= start(h).y <= box.y.v + box.height.v
    ensures hs != [] ==>
      (exists h :: h in hs && start(h).x == box.x.v)
      && (exists h :: h in hs && start(h).x == box.x.v + box.width.v)
      && (exists h :: h in hs && start(h).y == box.y.v)
      && (exists h :: h in hs && start(h).y == box.y.v + box.height.v)
  {
    var xmin, ymin, xmax, ymax := PosInf, PosInf, NegInf, NegInf;
    var i := |hs|;
    while i > 0
      invariant 0 <= i <= |hs|
      invariant i == |hs| ==> xmin == PosInf && ymin == PosInf && xmax == NegInf && ymax == NegInf
      invariant i < |hs| ==> xmin.Fin? && ymin.Fin? && xmax.Fin? && ymax.Fin?
      invariant forall k :: i <= k < |hs| ==>
        xmin.v <= start(hs[k]).x <= xmax.v && ymin.v <= start(hs[k]).y <= ymax.v
      invariant i < |hs| ==>
        (exists k :: i <= k < |hs| && start(hs[k]).x == xmin.v)
        && (exists k :: i <= k < |hs| && start(hs[k]).x == xmax.v)
        && (exists k :: i <= k < |hs| && start(hs[k]).y == ymin.v)
        && (exists k :: i <= k < |hs| && start(hs[k]).y == ymax.v)
    {
      i := i - 1;
      var v := start(hs[i]);
      var vx, vy := Fin(v.x), Fin(v.y);
      if ExtLess(vx, xmin) { xmin := vx; }
      if ExtLess(vy, ymin) { ymin := vy; }
      if ExtLess(xmax, vx) { xmax := vx; }
      if ExtLess(ymax, vy) { ymax := vy; }
    }
    box := Box(xmin, ymin, ExtSub(xmax, xmin), ExtSub(ymax, ymin));
  }

  /**
   * Which side of the boundary half-edge `h` the point (`x`, `y`) is on: the cross
   * product of the half-edge's direction with the point seen from its start;
   * negative to the right, zero on its line, positive to the left.
   */
  function SideOf(start: HalfEdge -> Pt, end: HalfEdge -> Pt, h: HalfEdge, x: real, y: real): real
  {
    Cross(Minus(end(h), start(h)), Minus(Pt(x, y), start(h)))
  }

  /**
   * Cell.pointIntersection on the half-edges `hs`: walking down from the last
   * half-edge, 0 at the first one whose line holds the point, -1 at the first one that
   * has the point on its left; 1 when the point is right of every half-edge.
   */
  method PointIntersection(start: HalfEdge -> Pt, end: HalfEdge -> Pt, hs: seq<HalfEdge>, x: real, y: real)
    returns (r: int)
    ensures r == 1 <==> forall k :: 0 <= k < |hs| ==> SideOf(start, end, hs[k], x, y) < 0.0
    ensures r == 0 ==> exists k :: 0 <= k < |hs| && SideOf(start, end, hs[k], x, y) == 0.0 &&
                                    forall j :: k < j < |hs| ==> SideOf(start, end, hs[j], x, y) < 0.0
    ensures r == -1 ==> exists k :: 0 <= k < |hs| && SideOf(start, end, hs[k], x, y) > 0.0 &&
                                     forall j :: k < j < |hs| ==> SideOf(start, end, hs[j], x, y) < 0.0
    ensures r == -1 || r == 0 || r == 1
  {
    var i := |hs|;
    while i > 0
      invariant 0 <= i <= |hs|
      invariant forall j :: i <= j < |hs| ==> SideOf(start, end, hs[j], x, y) < 0.0
    {
      i := i - 1;
      var p0, p1 := start(hs[i]), end(hs[i]);
      var side := (y - p0.y) * (p1.x - p0.x) - (x - p0.x) * (p1.y - p0.y);
      assert side == SideOf(start, end, hs[i], x, y);
      if side == 0.0 {
        return 0;
      }
      if side > 0.0 {
        return -1;
      }
    }
    return 1;
  }

  /** Cell: a site's cell, its half-edges and whether it still has to be closed. */
  class Cell {
    var site: Site
    var halfEdges: seq<HalfEdge>
    var closeMe: bool

    /** What this cell holds. */
    function State(): CellState
      reads this
    {
      CellState(site, halfEdges, closeMe)
    }

    /** Cell.constructor. */
    constructor(site: Site)
      ensures State() == Blank(site)
    {
      this.site := site;
      halfEdges := [];
      closeMe := false;
    }

    /** Cell.init: resets the cell for `site` and returns the same cell. */
    method Init(site: Site) returns (c: Cell)
      modifies this
      ensures c == this && State() == Blank(site)
    {
      this.site := site;
      halfEdges := [];
      closeMe := false;
      c := this;
    }

    /** Cell.addHalfEdge: appends exactly one half-edge for `edge`, seen from `left`. */
    method AddHalfEdge(edge: nat, left: Site, right: Option<Site>, angle: real)
      modifies this
      ensures halfEdges == old(halfEdges) + [HalfEdge(edge, left, right, angle)]
      ensures site == old(site) && closeMe == old(closeMe)
    {
      halfEdges := halfEdges + [HalfEdge(edge, left, right, angle)];
    }

    /** Cell.prepareHalfEdges: prune and sort the half-edges in place; the count that remains. */
    method PrepareHalfEdges(edgeOf: nat -> EdgeState<nat>) returns (n: nat)
      modifies this
      ensures halfEdges == SortByAngle(KeepComplete(edgeOf, old(halfEdges))) && n == |halfEdges|
      ensures site == old(site) && closeMe == old(closeMe)
    {
      halfEdges, n := PrepareList(edgeOf, halfEdges);
    }

    /** Cell.getNeighborIds. */
    method GetNeighborIds(edgeOf: nat -> EdgeState<nat>, vid: Site -> Option<nat>) returns (ids: seq<Option<nat>>)
      ensures ids == NeighborsOf(edgeOf, vid, site, halfEdges)
    {
      ids := NeighborIds(edgeOf, vid, site, halfEdges);
    }

    /** Cell.getBbox. */
    method GetBbox(start: HalfEdge -> Pt) returns (box: Box)
      ensures halfEdges == [] ==> box == Box(PosInf, PosInf, NegInf, NegInf)
      ensures halfEdges != [] ==> box.x.Fin? && box.y.Fin? && box.width.Fin? && box.height.Fin?
      ensures halfEdges != [] ==> forall h :: h in halfEdges ==>
        box.x.v <= start(h).x <= box.x.v + box.width.v && box.y.v <= start(h).y <= box.y.v + box.height.v
      ensures halfEdges != [] ==>
        (exists h :: h in halfEdges && start(h).x == box.x.v)
        && (exists h :: h in halfEdges && start(h).x == box.x.v + box.width.v)
        && (exists h :: h in halfEdges && start(h).y == box.y.v)
        && (exists h :: h in halfEdges && start(h).y == box.y.v + box.height.v)
    {
      box := BoundingBox(start, halfEdges);
    }

    /** Cell.pointIntersection. */
    method GetPointIntersection(start: HalfEdge -> Pt, end: HalfEdge -> Pt, x: real, y: real) returns (r: int)
      ensures r == 1 <==> forall k :: 0 <= k < |halfEdges| ==> SideOf(start, end, halfEdges[k], x, y) < 0.0
      ensures r == 0 ==> exists k :: 0 <= k < |halfEdges| && SideOf(start, end, halfEdges[k], x, y) == 0.0 &&
                                      forall j :: k < j < |halfEdges| ==> SideOf(start, end, halfEdges[j], x, y) < 0.0
      ensures r == -1 ==> exists k :: 0 <= k < |halfEdges| && SideOf(start, end, halfEdges[k], x, y) > 0.0 &&
                                       forall j :: k < j < |halfEdges| ==> SideOf(start, end, halfEdges[j], x, y) < 0.0
      ensures r == -1 || r == 0 || r == 1
    {
      r := PointIntersection(start, end, halfEdges, x, y);
    }
  }

  /** The static `Cell.junkyard`: cells handed back for reuse, the last one reused first. */
  class CellPool {
    var junkyard: seq<Cell>

    /** An empty pool. */
    constructor()
      ensures junkyard == []
    {
      junkyard := [];
    }

    /**
     * Cell.create: the last pooled cell re-initialised for `site` (and the pool loses
     * it), or a new cell when the pool is empty.
     */
    method Create(site: Site) returns (c: Cell)
      modifies this, if |junkyard| > 0 then {junkyard[|junkyard| - 1]} else {}
      ensures c.State() == Blank(site)
      ensures old(junkyard) == [] ==> fresh(c) && junkyard == []
      ensures old(junkyard) != [] ==>
        c == old(junkyard[|junkyard| - 1]) && junkyard == old(junkyard[..|junkyard| - 1])
    {
      if |junkyard| > 0 {
        var cell := junkyard[|junkyard| - 1];
        junkyard := junkyard[..|junkyard| - 1];
        c := cell.Init(site);
      } else {
        c := new Cell(site);
      }
    }
  }
}
