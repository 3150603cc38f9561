/**
 * src/Voronoi.js: Fortune's sweep over the sites, the beachline of parabolic arcs kept
 * in one threaded red-black tree and the circle events kept in another, the pools
 * ("junkyards") that recycle arcs, events, vertices, edges and cells, and the wrap-up
 * that connects, clips and closes the diagram at the bounding box.
 *
 * Arcs and circle events are tree node ids with their payloads in `arcs` and `events`;
 * vertices and edges are ids with their payloads in `vertexAt` and `edgeAt`, so that a
 * vertex or edge shared by several cells, or handed back for recycling, is one object.
 * The square root, a half-edge's angle and a half-edge's start and end vertex are
 * given to the constructor: the model does not compute them.
 */
module Fortune {
  import opened Wrappers
  import opened Points
  import opened Sites
  import opened Extended
  import opened Epsilon
  import opened RBNodes
  import opened RBTrees
  import opened Edges
  import opened Cells
  import opened BreakPoints
  import opened Circles
  import opened SweepOrder
  import opened Clipping
  import opened Border
  import opened CircleQueue
  import opened SweepState
  import opened Landing
  import opened Removal
  import opened WrapUp

  /** What compute returns and recycle takes back: the cells, and the edges and vertices by id. */
  datatype Diagram = Diagram(cells: seq<CellState>, edges: seq<nat>, vertices: seq<nat>)

  /** A site snapped to the ε grid, as quantizeSites leaves it: `Math.floor(v / ε) * ε` for each coordinate. */
  function QuantizedSite(s: Site): (q: Site)
    ensures q.id == s.id && q.x <= s.x < q.x + Eps && q.y <= s.y < q.y + Eps
  {
    Site(s.id, Quantize(s.x), Quantize(s.y))
  }

  /** Quantizing a site twice is quantizing it once. */
  lemma QuantizedSiteIdempotent(s: Site)
    ensures QuantizedSite(QuantizedSite(s)) == QuantizedSite(s)
  {
    QuantizeIdempotent(s.x);
    QuantizeIdempotent(s.y);
  }

  /** `cells` with `h` appended to the half-edges of the cell at `i`. */
  function AddTo(cells: seq<CellState>, i: nat, h: HalfEdge): (r: seq<CellState>)
    requires i < |cells|
    ensures |r| == |cells| && r[i].halfEdges == cells[i].halfEdges + [h]
    ensures forall j :: 0 <= j < |cells| && j != i ==> r[j] == cells[j]
  {
    cells[i := cells[i].(halfEdges := cells[i].halfEdges + [h])]
  }

  /** The cells are those of the kept sites, in order, and each kept site's id (`site.voronoiId`) names its own cell. */
  predicate CellsOf(cells: seq<CellState>, vid: map<nat, nat>, kept: seq<Site>)
  {
    |cells| == |kept| && (forall k :: 0 <= k < |kept| ==> cells[k].site == kept[k]) && IdsOf(kept, vid)
  }

  /**
   * The state of compute's main loop over the sorted sites `s`: the stream is popped as
   * far as `rest` and `site`, the sites handled are `done`, those kept are `Dedup(done)`
   * with `xsite` the last, and the cells are theirs.
   */
  predicate SweepsSites(s: seq<Site>, rest: seq<Site>, site: Option<Site>, done: seq<Site>, kept: seq<Site>, xsite: Option<Site>,
                        cells: seq<CellState>, vid: map<nat, nat>)
  {
    Popping(s, rest, site, done) && CellsOf(cells, vid, kept) && kept == Dedup(done, None) && xsite == LastKept(done, None)
    && (forall x :: x in kept ==> x in s)
  }

  /** A site at a new place gets the next cell, and the stream moves on. */
  lemma SweepsKeep(s: seq<Site>, rest: seq<Site>, x: Site, done: seq<Site>, kept: seq<Site>, xsite: Option<Site>,
                   cells0: seq<CellState>, vid0: map<nat, nat>, cells1: seq<CellState>, vid1: map<nat, nat>)
    requires SweepsSites(s, rest, Some(x), done, kept, xsite, cells0, vid0) && SameIds(s)
    requires !(xsite.Some? && SamePlace(x, xsite.value))
    requires SameSites(cells0 + [Blank(x)], cells1) && vid1 == vid0[x.id := |cells0|]
    ensures SweepsSites(s, Pop(rest).1, Pop(rest).0, done + [x], kept + [x], Some(x), cells1, vid1)
  {
    IdsSnoc(kept, vid0, x, s);
    DedupSnoc(done, x, None);
    PoppingStep(s, rest, Some(x), done);
    var kept' := kept + [x];
    forall k | 0 <= k < |kept'| ensures cells1[k].site == kept'[k] {
      assert cells1[k].site == (cells0 + [Blank(x)])[k].site;
    }
  }

  /** A site at the place of the last site kept is skipped, and the stream moves on. */
  lemma SweepsSkip(s: seq<Site>, rest: seq<Site>, x: Site, done: seq<Site>, kept: seq<Site>, xsite: Option<Site>,
                   cells: seq<CellState>, vid: map<nat, nat>)
    requires SweepsSites(s, rest, Some(x), done, kept, xsite, cells, vid)
    requires xsite.Some? && SamePlace(x, xsite.value)
    ensures SweepsSites(s, Pop(rest).1, Pop(rest).0, done + [x], kept, xsite, cells, vid)
  {
    DedupSnoc(done, x, None);
    PoppingStep(s, rest, Some(x), done);
  }

  /** A circle event keeps the sites of the cells, so the loop's state holds on. */
  lemma SweepsCircle(s: seq<Site>, rest: seq<Site>, site: Option<Site>, done: seq<Site>, kept: seq<Site>, xsite: Option<Site>,
                     cells0: seq<CellState>, cells1: seq<CellState>, vid: map<nat, nat>)
    requires SweepsSites(s, rest, site, done, kept, xsite, cells0, vid) && SameSites(cells0, cells1)
    ensures SweepsSites(s, rest, site, done, kept, xsite, cells1, vid)
  {
  }

  /**
   * What detachCircleEvent leaves as the first event when it removes the `k`-th: the
   * next one when the removed one had no predecessor, the old first otherwise.
   */
  lemma NextFirst(q: seq<nat>, e: nat, prev: map<nat, Option<nat>>, next: map<nat, Option<nat>>, first: Option<nat>, first': Option<nat>)
    requires Chained(q, prev, next) && Distinct(q) && e in q && first == Head(q)
    requires first' == if prev[e].None? then next[e] else first
    ensures first' == Head(Without(q, e))
  {
    var k := IndexOf(q, e);
    assert LinkedAt(q, k, prev, next);
    if k > 0 {
      assert Without(q, e)[0] == q[0];
    }
  }

  /** The circle event attachCircleEvent fills in for `arc`, whose site is `site`, from the circle `k`. */
  function EventFor(arc: nat, site: Site, k: Collapse): (c: CircleEvent)
    ensures c.arc == arc && c.site == site && c.x == k.x && c.y == k.y && c.ycenter == k.ycenter
  {
    CircleEvent(arc, site, k.x, k.y, k.ycenter)
  }

  /**
   * The circle attachCircleEvent finds for `arc` on the beachline `b`: none for the first
   * and the last arc, else the one `CollapseOf` gives for the sites of the arc and its two
   * neighbours.
   */
  function CollapseIn(sqrt: real -> real, b: seq<nat>, arcs: map<nat, Arc>, arc: nat): (k: Option<Collapse>)
    requires arc in b && forall a :: a in b ==> a in arcs
  {
    var i := IndexOf(b, arc);
    if i == 0 || i == |b| - 1 then None
    else CollapseOf(sqrt, arcs[b[i - 1]].site, arcs[arc].site, arcs[b[i + 1]].site)
  }

  /**
   * attachCircleEvent queues nothing exactly when the arc lacks a neighbour on a side, its
   * neighbours have the same site, or the three sites fail the clockwise test; otherwise
   * the event's centre is as far from the arc's site as from both neighbours' sites.
   */
  lemma AttachCases(sqrt: real -> real, b: seq<nat>, arcs: map<nat, Arc>, arc: nat)
    requires arc in b && forall a :: a in b ==> a in arcs
    ensures var i := IndexOf(b, arc);
      CollapseIn(sqrt, b, arcs, arc).None? <==>
        i == 0 || i == |b| - 1 || arcs[b[i - 1]].site == arcs[b[i + 1]].site
        || Denominator(Minus(arcs[b[i - 1]].site.Pos(), arcs[arc].site.Pos()), Minus(arcs[b[i + 1]].site.Pos(), arcs[arc].site.Pos())) >= -0.000000000002
    ensures var i := IndexOf(b, arc); var k := CollapseIn(sqrt, b, arcs, arc);
      k.Some? ==> var center := Pt(k.value.x, k.value.ycenter);
        SquaredLength(Minus(center, arcs[b[i - 1]].site.Pos())) == SquaredLength(Minus(center, arcs[arc].site.Pos()))
        && SquaredLength(Minus(center, arcs[b[i + 1]].site.Pos())) == SquaredLength(Minus(center, arcs[arc].site.Pos()))
  {
    var i := IndexOf(b, arc);
    if 0 < i < |b| - 1 {
      var l, c, r := arcs[b[i - 1]].site, arcs[arc].site, arcs[b[i + 1]].site;
      CollapseNeedsTurn(sqrt, l, c, r);
      if CollapseOf(sqrt, l, c, r).Some? {
        CollapseCentered(sqrt, l, c, r);
      }
    }
  }

  /**
   * The arc holds the pending event attachCircleEvent gives it on the beachline `b`: one
   * exactly when the arc collapses there (`CollapseIn`), filled in from that collapse.
   */
  ghost predicate Circled(sqrt: real -> real, b: seq<nat>, arcs: map<nat, Arc>, events: map<nat, CircleEvent>, arc: nat)
  {
    arc in b && (forall a :: a in b ==> a in arcs)
    && (arcs[arc].circle.Some? <==> CollapseIn(sqrt, b, arcs, arc).Some?)
    && (arcs[arc].circle.Some? ==>
          arcs[arc].circle.value in events
          && events[arcs[arc].circle.value] == EventFor(arc, arcs[arc].site, CollapseIn(sqrt, b, arcs, arc).value))
  }

  /** Only the sites of the arcs on the beachline decide where an arc collapses. */
  lemma CollapseBySites(sqrt: real -> real, b: seq<nat>, arcs0: map<nat, Arc>, arcs: map<nat, Arc>, arc: nat)
    requires arc in b && forall a :: a in b ==> a in arcs0 && a in arcs && arcs[a].site == arcs0[a].site
    ensures CollapseIn(sqrt, b, arcs, arc) == CollapseIn(sqrt, b, arcs0, arc)
  {
    var i := IndexOf(b, arc);
    if 0 < i < |b| - 1 {
      assert b[i - 1] in b && b[i + 1] in b;
    }
  }

  /**
   * An arc keeps its event as attached when another arc `other` gets an event: a new one
   * `id`, off the queue `q` that holds the arc's own event, or none at all.
   */
  lemma CircledKept(sqrt: real -> real, b: seq<nat>, arcs0: map<nat, Arc>, events0: map<nat, CircleEvent>, q: seq<nat>,
                    arcs: map<nat, Arc>, events: map<nat, CircleEvent>, arc: nat, other: nat, id: nat)
    requires Circled(sqrt, b, arcs0, events0, arc) && (arcs0[arc].circle.Some? ==> arcs0[arc].circle.value in q)
    requires other in arcs0 && other in arcs && other != arc && arcs == arcs0[other := arcs0[other].(circle := arcs[other].circle)]
    requires events == events0 || (id !in q && id in events && events == events0[id := events[id]])
    ensures Circled(sqrt, b, arcs, events, arc)
  {
    CollapseBySites(sqrt, b, arcs0, arcs, arc);
  }

  /** Every arc of `arcs0` but those in `touched` is in `arcs`, unchanged. */
  predicate Untouched(arcs0: map<nat, Arc>, arcs: map<nat, Arc>, touched: set<nat>)
  {
    forall a :: a in arcs0 && a !in touched ==> a in arcs && arcs[a] == arcs0[a]
  }

  /**
   * The arcs once a new arc `newArc` has landed between the arcs `l` and `r`: the new arc
   * carries the edge `e1`, `r` the edge `e2`, and the pending events of `l` and `r` are
   * now `cl` and `cr`; every other arc is as it was.
   */
  function LandedBetween(arcs: map<nat, Arc>, l: nat, r: nat, newArc: nat, e1: nat, e2: nat, cl: Option<nat>, cr: Option<nat>): map<nat, Arc>
    requires l in arcs && r in arcs && newArc in arcs
  {
    arcs[l := arcs[l].(circle := cl)][r := arcs[r].(edge := Some(e2), circle := cr)][newArc := arcs[newArc].(edge := Some(e1))]
  }

  /** Clearing the events of `l` and `r` first does not change where the new arc lands between them. */
  lemma LandedAfterDetach(a0: map<nat, Arc>, a1: map<nat, Arc>, l: nat, r: nat, newArc: nat, e1: nat, e2: nat, cl: Option<nat>, cr: Option<nat>)
    requires l in a0 && r in a0 && newArc in a0 && l != r && newArc != r && l != newArc
    requires a1 == a0[l := a0[l].(circle := None)][r := a0[r].(circle := None)]
    ensures l in a1 && r in a1 && newArc in a1
    ensures LandedBetween(a1, l, r, newArc, e1, e2, cl, cr) == LandedBetween(a0, l, r, newArc, e1, e2, cl, cr)
  {
  }

  /**
   * The arcs once a new arc `newArc` has split the arc `l` and the copy `copy` of `l`
   * follows it: the new arc and the copy carry the edge `e`, and the pending events of
   * `l` and the copy are now `cl` and `cc`; every other arc is as it was.
   */
  function LandedSplit(arcs: map<nat, Arc>, l: nat, newArc: nat, copy: nat, e: nat, cl: Option<nat>, cc: Option<nat>): map<nat, Arc>
    requires l in arcs && newArc in arcs
  {
    arcs[l := arcs[l].(circle := cl)][newArc := arcs[newArc].(edge := Some(e))][copy := Arc(arcs[l].site, Some(e), cc)]
  }

  /** The arcs, edges and vertices addBeachSection works on, as one value. */
  datatype Growth = Growth(arcs: map<nat, Arc>, edges: seq<nat>, edgeAt: map<nat, EdgeState<nat>>, vertices: seq<nat>, vertexAt: map<nat, Pt>)

  /**
   * The cases of addBeachSection once the new arc `newArc` for `site` is on the beachline,
   * from `g0` to `g`: nothing more when there is no arc on the left (`ok` then says
   * whether the source goes on without throwing, which it does only when there is no arc
   * at all); the split when the site lands on `lArc` itself; one edge when it lands
   * after the last arc; two edges from a new vertex when it lands between two arcs.
   * `vid` and `n` are the voronoiIds and the number of cells.
   */
  predicate Added(site: Site, lArc: Option<nat>, rArc: Option<nat>, newArc: nat, copy: nat, v: nat, e1: nat, e2: nat, ok: bool,
                    vid: map<nat, nat>, n: nat, g0: Growth, g: Growth)
  {
    if lArc.None? then (ok <==> rArc.None?) && g == g0
    else if rArc == lArc then AddedSplit(site, lArc.value, newArc, copy, e1, ok, vid, n, g0, g)
    else if rArc.None? then AddedAfter(site, lArc.value, newArc, e1, ok, vid, n, g0, g)
    else AddedBetween(site, lArc.value, rArc.value, newArc, v, e1, e2, ok, vid, n, g0, g)
  }

  /**
   * The split: one edge `e1` between the site of `l` and the new site; `ok` exactly when
   * both sites have cells; the new arc and the copy `copy` of `l` (right after it) share
   * the edge and `l` and the copy may hold new events.  Where the source throws, `l` has
   * lost its event and the copy is on the beachline without an edge of this call.
   */
  predicate AddedSplit(site: Site, l: nat, newArc: nat, copy: nat, e1: nat, ok: bool, vid: map<nat, nat>, n: nat, g0: Growth, g: Growth)
  {
    l in g0.arcs && newArc in g0.arcs && l in g.arcs && copy in g.arcs && copy != l && copy != newArc
    && (ok <==> Celled(vid, n, g0.arcs[l].site) && Celled(vid, n, site))
    && g.vertices == g0.vertices && g.vertexAt == g0.vertexAt
    && g.edges == g0.edges + [e1] && g.edgeAt == g0.edgeAt[e1 := NewEdgeState(g0.arcs[l].site, site, None, None)]
    && (ok ==> g.arcs == LandedSplit(g0.arcs, l, newArc, copy, e1, g.arcs[l].circle, g.arcs[copy].circle))
    && (!ok ==> g.arcs == g0.arcs[l := g0.arcs[l].(circle := None)][copy := g.arcs[copy]]
                && g.arcs[copy].site == g0.arcs[l].site && g.arcs[copy].circle.None?)
  }

  /** After the last arc `l`: one edge `e1` between `l`'s site and the new site, the new arc's when both sites have cells. */
  predicate AddedAfter(site: Site, l: nat, newArc: nat, e1: nat, ok: bool, vid: map<nat, nat>, n: nat, g0: Growth, g: Growth)
  {
    l in g0.arcs && newArc in g0.arcs
    && (ok <==> Celled(vid, n, g0.arcs[l].site) && Celled(vid, n, site))
    && g.vertices == g0.vertices && g.vertexAt == g0.vertexAt
    && g.edges == g0.edges + [e1] && g.edgeAt == g0.edgeAt[e1 := NewEdgeState(g0.arcs[l].site, site, None, None)]
    && g.arcs == if ok then g0.arcs[newArc := g0.arcs[newArc].(edge := Some(e1))] else g0.arcs
  }

  /**
   * Between the distinct arcs `l` and `r`: `ok` exactly when the three sites are not
   * collinear, `r` has an edge and all three sites have cells; then the vertex `v` at the
   * centre of their circle starts `r`'s old edge, and the edges `e1` (the new arc's) and
   * `e2` (`r`'s) start there, as LandedBetween says; otherwise nothing changes.
   */
  predicate AddedBetween(site: Site, l: nat, r: nat, newArc: nat, v: nat, e1: nat, e2: nat, ok: bool,
                           vid: map<nat, nat>, n: nat, g0: Growth, g: Growth)
  {
    l in g0.arcs && r in g0.arcs && newArc in g0.arcs && l in g.arcs && r in g.arcs
    && var lSite, rSite, re := g0.arcs[l].site, g0.arcs[r].site, g0.arcs[r].edge;
    var c := LandingVertex(lSite, site, rSite);
    (ok <==> c.Some? && re.Some? && re.value in g0.edgeAt && Celled(vid, n, lSite) && Celled(vid, n, site) && Celled(vid, n, rSite))
    && (!ok ==> g == g0)
    && (ok ==> JoinedAt(site, l, r, newArc, c.value, v, e1, e2, g0, g))
  }

  /**
   * The new arc of `site` landed between `l` and `r` at the point `c`: the vertex `v` at
   * `c` starts `r`'s old edge, and the edges `e1` (the new arc's) and `e2` (`r`'s) start
   * there, as LandedBetween says.
   */
  predicate JoinedAt(site: Site, l: nat, r: nat, newArc: nat, c: Pt, v: nat, e1: nat, e2: nat, g0: Growth, g: Growth)
  {
    l in g0.arcs && r in g0.arcs && newArc in g0.arcs && l in g.arcs && r in g.arcs
    && g0.arcs[r].edge.Some? && g0.arcs[r].edge.value in g0.edgeAt
    && var lSite, rSite, re := g0.arcs[l].site, g0.arcs[r].site, g0.arcs[r].edge.value;
    g.vertices == g0.vertices + [v] && g.vertexAt == g0.vertexAt[v := c]
    && g.edges == g0.edges + [e1] + [e2]
    && g.edgeAt == g0.edgeAt[re := StartPoint(g0.edgeAt[re], Some(lSite), Some(rSite), v)]
                            [e1 := NewEdgeState(lSite, site, None, Some(v))][e2 := NewEdgeState(site, rSite, None, Some(v))]
    && g.arcs == LandedBetween(g0.arcs, l, r, newArc, e1, e2, g.arcs[l].circle, g.arcs[r].circle)
  }

  /** JoinedAt from its two steps: the vertex `v` starting `r`'s edge (`g0` to `g1`), then the two edges and the events (`g1` to `g`). */
  lemma JoinSteps(site: Site, l: nat, r: nat, newArc: nat, c: Pt, v: nat, e1: nat, e2: nat, re: nat, g0: Growth, g1: Growth, g: Growth)
    requires l in g0.arcs && r in g0.arcs && newArc in g0.arcs && g0.arcs[r].edge == Some(re) && re in g0.edgeAt
    requires g1.arcs == g0.arcs && g1.edges == g0.edges && g1.vertices == g0.vertices + [v] && g1.vertexAt == g0.vertexAt[v := c]
    requires g1.edgeAt == g0.edgeAt[re := StartPoint(g0.edgeAt[re], Some(g0.arcs[l].site), Some(g0.arcs[r].site), v)]
    requires g.vertices == g1.vertices && g.vertexAt == g1.vertexAt && g.edges == g1.edges + [e1] + [e2]
    requires g.edgeAt == g1.edgeAt[e1 := NewEdgeState(g0.arcs[l].site, site, None, Some(v))][e2 := NewEdgeState(site, g0.arcs[r].site, None, Some(v))]
    requires l in g.arcs && r in g.arcs && g.arcs == LandedBetween(g1.arcs, l, r, newArc, e1, e2, g.arcs[l].circle, g.arcs[r].circle)
    ensures JoinedAt(site, l, r, newArc, c, v, e1, e2, g0, g)
  {
  }

  /** The first half of the split, on the arcs: `l` lost its event and its copy `copy`, without an event, is in `a1`. */
  predicate Copied(a0: map<nat, Arc>, a1: map<nat, Arc>, l: nat, newArc: nat, copy: nat)
  {
    l in a0 && newArc in a0 && copy in a1 && l != newArc && l != copy && newArc != copy
    && a1 == a0[l := a0[l].(circle := None)][copy := a1[copy]] && a1[copy].site == a0[l].site && a1[copy].circle.None?
  }

  /**
   * The second half of the split, from `g1` to `g`: the edge `e` between the sites of `l`
   * and the new arc, listed; when both sites have cells (`ok`) it is the edge of the new
   * arc and of the copy, and `l` and the copy may hold new events.
   */
  predicate Shared(g1: Growth, g: Growth, l: nat, newArc: nat, copy: nat, e: nat, ok: bool, vid: map<nat, nat>, n: nat)
  {
    l in g1.arcs && newArc in g1.arcs && copy in g1.arcs && l in g.arcs && copy in g.arcs
    && g.vertices == g1.vertices && g.vertexAt == g1.vertexAt
    && g.edges == g1.edges + [e] && g.edgeAt == g1.edgeAt[e := NewEdgeState(g1.arcs[l].site, g1.arcs[newArc].site, None, None)]
    && (ok <==> Celled(vid, n, g1.arcs[l].site) && Celled(vid, n, g1.arcs[newArc].site))
    && (ok ==> g.arcs == g1.arcs[l := g1.arcs[l].(circle := g.arcs[l].circle)][newArc := g1.arcs[newArc].(edge := Some(e))]
                                [copy := g1.arcs[copy].(edge := Some(e), circle := g.arcs[copy].circle)])
    && (!ok ==> g.arcs == g1.arcs)
  }

  /** The split's shared edge `e` (for the new arc `n` and the copy `c`), then the events of `l` and the copy, as one update. */
  lemma SharedArcs(a0: map<nat, Arc>, a1: map<nat, Arc>, a2: map<nat, Arc>, l: nat, n: nat, c: nat, e: nat)
    requires l in a0 && n in a0 && c in a0 && l != n && l != c && n != c
    requires a1 == a0[n := a0[n].(edge := Some(e))][c := a0[c].(edge := Some(e))]
    requires l in a2 && c in a2 && a2 == a1[l := a1[l].(circle := a2[l].circle)][c := a1[c].(circle := a2[c].circle)]
    ensures a2 == a0[l := a0[l].(circle := a2[l].circle)][n := a0[n].(edge := Some(e))][c := a0[c].(edge := Some(e), circle := a2[c].circle)]
  {
  }

  /** The new edge `e` of `r`, then the events of `l` and `r`, as one update. */
  lemma ReconnectedArcs(a0: map<nat, Arc>, a1: map<nat, Arc>, a2: map<nat, Arc>, l: nat, r: nat, e: nat)
    requires l in a0 && r in a0 && l != r
    requires a1 == a0[r := a0[r].(edge := Some(e))]
    requires l in a2 && r in a2 && a2 == a1[l := a1[l].(circle := a2[l].circle)][r := a1[r].(circle := a2[r].circle)]
    ensures a2 == a0[l := a0[l].(circle := a2[l].circle)][r := a0[r].(circle := a2[r].circle, edge := Some(e))]
  {
  }

  /** The new edges `e1` of the new arc `n` and `e2` of `r`, then the events of `l` and `r`: LandedBetween. */
  lemma FannedArcs(a0: map<nat, Arc>, a1: map<nat, Arc>, a2: map<nat, Arc>, l: nat, r: nat, n: nat, e1: nat, e2: nat)
    requires l in a0 && r in a0 && n in a0 && l != r && l != n && r != n
    requires a1 == a0[n := a0[n].(edge := Some(e1))][r := a0[r].(edge := Some(e2))]
    requires l in a2 && r in a2 && a2 == a1[l := a1[l].(circle := a2[l].circle)][r := a1[r].(circle := a2[r].circle)]
    ensures a2 == LandedBetween(a0, l, r, n, e1, e2, a2[l].circle, a2[r].circle)
  {
  }

  /** The split's two steps, the copy of `l` (to `g1`) and then the shared edge `e`, add what AddedSplit says. */
  lemma SplitAdded(site: Site, l: nat, newArc: nat, copy: nat, e: nat, ok: bool, vid: map<nat, nat>, n: nat, g0: Growth, g1: Growth, g: Growth)
    requires Copied(g0.arcs, g1.arcs, l, newArc, copy) && g1 == g0.(arcs := g1.arcs) && g0.arcs[newArc].site == site
    requires Shared(g1, g, l, newArc, copy, e, ok, vid, n)
    ensures AddedSplit(site, l, newArc, copy, e, ok, vid, n, g0, g)
  {
  }

  /**
   * HalfEdge.constructor for `site` on the edge `e` (state `es`), facing `other`: its angle
   * is `angle` of the sites and of the edge's endpoints, placed by `vAt`.
   */
  function HalfEdgeAt(angle: (Site, Option<Site>, Option<Pt>, Option<Pt>) -> real, vAt: map<nat, Pt>, e: nat, es: EdgeState<nat>,
                      site: Site, other: Option<Site>): HalfEdge
  {
    HalfEdge(e, site, other, angle(site, other, Located(vAt, es.va), Located(vAt, es.vb)))
  }

  /**
   * The cells `cells0` once createEdge has pushed the half-edges of the edge `e` (in the
   * state `es`) between `l` and `r`: one for `l` into `l`'s cell, then one for `r` into
   * `r`'s, each only as long as the site has a cell (`vid` being the voronoiIds; the
   * source throws at the first that has none).
   */
  function Paired(angle: (Site, Option<Site>, Option<Pt>, Option<Pt>) -> real, vid: map<nat, nat>, vAt: map<nat, Pt>,
                  cells0: seq<CellState>, e: nat, es: EdgeState<nat>, l: Site, r: Site): seq<CellState>
  {
    if !Celled(vid, |cells0|, l) then cells0
    else
      var withL := AddTo(cells0, vid[l.id], HalfEdgeAt(angle, vAt, e, es, l, Some(r)));
      if !Celled(vid, |cells0|, r) then withL else AddTo(withL, vid[r.id], HalfEdgeAt(angle, vAt, e, es, r, Some(l)))
  }

  /**
   * What createEdge does to the cells (Paired): the sites of the cells stay; when both
   * sites have cells, distinct ones, each gains exactly one half-edge of `e` at the end,
   * its own site's facing the other; no other cell changes.
   */
  lemma PairedCells(angle: (Site, Option<Site>, Option<Pt>, Option<Pt>) -> real, vid: map<nat, nat>, vAt: map<nat, Pt>,
                    cells0: seq<CellState>, e: nat, es: EdgeState<nat>, l: Site, r: Site)
    ensures var c := Paired(angle, vid, vAt, cells0, e, es, l, r);
      SameSites(cells0, c)
      && (Celled(vid, |cells0|, l) && Celled(vid, |cells0|, r) && vid[l.id] != vid[r.id] ==>
            c[vid[l.id]].halfEdges == cells0[vid[l.id]].halfEdges + [HalfEdgeAt(angle, vAt, e, es, l, Some(r))]
            && c[vid[r.id]].halfEdges == cells0[vid[r.id]].halfEdges + [HalfEdgeAt(angle, vAt, e, es, r, Some(l))])
      && (forall i :: 0 <= i < |c| && !(l.id in vid && i == vid[l.id]) && !(r.id in vid && i == vid[r.id]) ==> c[i] == cells0[i])
  {
  }

  /**
   * The cells `cells0` after the between case's two createEdge calls, both edges starting
   * at the vertex `v`: `e1` from `lSite` to `s`, then `e2` from `s` to `rSite`.
   */
  function Fanned(angle: (Site, Option<Site>, Option<Pt>, Option<Pt>) -> real, vid: map<nat, nat>, vAt: map<nat, Pt>,
                  cells0: seq<CellState>, lSite: Site, s: Site, rSite: Site, v: nat, e1: nat, e2: nat): seq<CellState>
  {
    var c1 := Paired(angle, vid, vAt, cells0, e1, NewEdgeState(lSite, s, None, Some(v)), lSite, s);
    Paired(angle, vid, vAt, c1, e2, NewEdgeState(s, rSite, None, Some(v)), s, rSite)
  }

  /**
   * The cells `cells0` after addBeachSection for `site`, landed between `lArc` and `rArc`
   * (whose sites `arcs0` gives): unchanged with no arc on the left; the half-edges of the
   * one edge `e1` from the left arc's site to `site` for a split or a landing after the
   * last arc; where the site lands between two arcs, those of `e1` and `e2` from the
   * vertex `v` when the source goes through (`ok`), and none otherwise.
   */
  function AddedCells(angle: (Site, Option<Site>, Option<Pt>, Option<Pt>) -> real, vid: map<nat, nat>, vAt: map<nat, Pt>,
                      cells0: seq<CellState>, site: Site, lArc: Option<nat>, rArc: Option<nat>, arcs0: map<nat, Arc>,
                      v: nat, e1: nat, e2: nat, ok: bool): seq<CellState>
    requires lArc.Some? ==> lArc.value in arcs0
    requires rArc.Some? ==> rArc.value in arcs0
  {
    if lArc.None? then cells0
    else
      var lSite := arcs0[lArc.value].site;
      if rArc == lArc || rArc.None? then Paired(angle, vid, vAt, cells0, e1, NewEdgeState(lSite, site, None, None), lSite, site)
      else if ok then Fanned(angle, vid, vAt, cells0, lSite, site, arcs0[rArc.value].site, v, e1, e2)
      else cells0
  }

  /**
   * The cells `cells0` after removeBeachSection, where the looks stopped at `j` and `m` of
   * the beachline `b` (over the arcs `arcs0` and the edges `edgeAt0` it started from):
   * when both stop on the beachline and every disappearing transition has an edge, the
   * half-edges of the new edge `e` between the sites at `j` and `m`, ending at the vertex
   * `v`; otherwise the source throws before createEdge and the cells are as they were.
   */
  function Bridged(angle: (Site, Option<Site>, Option<Pt>, Option<Pt>) -> real, vid: map<nat, nat>, vAt: map<nat, Pt>,
                   cells0: seq<CellState>, b: seq<nat>, j: int, m: int, arcs0: map<nat, Arc>, edgeAt0: map<nat, EdgeState<nat>>,
                   v: nat, e: nat): seq<CellState>
    requires forall a :: a in b ==> a in arcs0
  {
    if 0 <= j < m < |b| && Edged(edgeAt0, Transitions(arcs0, b[j..m + 1])) then
      var lSite, rSite := arcs0[b[j]].site, arcs0[b[m]].site;
      Paired(angle, vid, vAt, cells0, e, NewEdgeState(lSite, rSite, None, Some(v)), lSite, rSite)
    else cells0
  }

  /** removeBeachSection keeps the cells' sites (`Bridged` only adds half-edges). */
  lemma BridgedSites(angle: (Site, Option<Site>, Option<Pt>, Option<Pt>) -> real, vid: map<nat, nat>, vAt: map<nat, Pt>,
                     cells0: seq<CellState>, b: seq<nat>, j: int, m: int, arcs0: map<nat, Arc>, edgeAt0: map<nat, EdgeState<nat>>,
                     v: nat, e: nat)
    requires forall a :: a in b ==> a in arcs0
    ensures SameSites(cells0, Bridged(angle, vid, vAt, cells0, b, j, m, arcs0, edgeAt0, v, e))
  {
  }

  /**
   * The cells Bridge leaves, stated over the uncircled arcs and the transitions `d`
   * from `j` to `m` of `b`, are the cells `Bridged` states over the arcs `arcs0` the
   * removal started from.
   */
  lemma BridgedByBridge(angle: (Site, Option<Site>, Option<Pt>, Option<Pt>) -> real, vid: map<nat, nat>, vAt: map<nat, Pt>,
                        cells0: seq<CellState>, c: seq<CellState>, b: seq<nat>, j: nat, m: nat, d: seq<nat>,
                        arcs0: map<nat, Arc>, edgeAt0: map<nat, EdgeState<nat>>, v: nat, e: nat)
    requires j < m < |b| && (forall a :: a in b ==> a in arcs0) && d == b[j..m + 1]
    requires var arcs := Uncircled(arcs0, b[j..m + 1]);
      (forall a :: a in d ==> a in arcs) && Transitions(arcs, d) == Transitions(arcs0, d)
      && var lSite, rSite := arcs[d[0]].site, arcs[d[|d| - 1]].site;
         c == if Edged(edgeAt0, Transitions(arcs, d))
              then Paired(angle, vid, vAt, cells0, e, NewEdgeState(lSite, rSite, None, Some(v)), lSite, rSite)
              else cells0
    ensures c == Bridged(angle, vid, vAt, cells0, b, j, m, arcs0, edgeAt0, v, e)
  {
    var arcs := Uncircled(arcs0, b[j..m + 1]);
    assert d[0] == b[j] && d[|d| - 1] == b[m];
    assert arcs[b[j]].site == arcs0[b[j]].site && arcs[b[m]].site == arcs0[b[m]].site;
  }

  /**
   * closeCells on a marked cell `c0` with the prepared half-edges `hs`, none missing:
   * closing it as `ClosedAs` says is what `CellOk` and `CellClosed` ask of that case.
   */
  lemma MarkedClosed(ends0: Ends, ends: Ends, c0: CellState, c: CellState, hs: seq<HalfEdge>, runs: seq<seq<HalfEdge>>,
                     vidss: seq<seq<nat>>, box: Bounds, angle: (Site, Option<Site>, Option<Pt>, Option<Pt>) -> real, ok: bool)
    requires hs != [] && c0.closeMe && (ok <==> Closable(ends0, hs, box))
    requires ok ==> ClosedAs(ends, hs, runs, vidss, c0.site, box, angle) && c == CellState(c0.site, Weave(hs, runs), false)
    ensures ok <==> CellOk(ends0, c0, hs, box)
    ensures ok ==> CellClosed(ends, c0, c, hs, runs, vidss, box, angle)
  {
  }

  /**
   * What the wrap-up made of the state `swept` the sweep left, through the clipped state
   * `mid`, with the diagram `d`: the edges were ready; the edges that survive clipping
   * (`Survivors`) are the first of `d`'s, the border edges follow; and each of `d`'s
   * cells closes its marked cell of `mid` with the runs `runss` along the box
   * (`CellClosed`), its ends read through `ends`.
   */
  ghost predicate WrappedUp(swept: Frame, mid: Frame, d: Diagram, runss: seq<seq<seq<HalfEdge>>>, vidsss: seq<seq<seq<nat>>>,
                            box: Bounds, ends: Ends, angle: (Site, Option<Site>, Option<Pt>, Option<Pt>) -> real)
  {
    (forall e :: e in swept.edges ==> e in swept.edgeAt && Ready(swept.edgeAt[e], swept.vAt))
    && mid.edges == Survivors(swept.edges, swept.edgeAt, swept.vAt, box) && Marked(swept.cells, mid.cells)
    && mid.edges <= d.edges && |runss| == |vidsss| == |d.cells| == |mid.cells| && SameSites(swept.cells, d.cells)
    && forall j :: 0 <= j < |d.cells| ==>
         CellClosed(ends, mid.cells[j], d.cells[j], Prepared(mid.edgeAt, mid.cells[j].halfEdges), runss[j], vidsss[j], box, angle)
  }

  class Voronoi {
    /** Math.sqrt. */
    const sqrt: real -> real
    /** The angle a new HalfEdge takes from its site, the other site and the edge's endpoints (src/HalfEdge.js is not part of this model). */
    const angle: (Site, Option<Site>, Option<Pt>, Option<Pt>) -> real
    /** HalfEdge.getStartpoint on a half-edge of the given edge. */
    const startOf: (HalfEdge, EdgeState<nat>) -> Option<nat>
    /** HalfEdge.getEndpoint on a half-edge of the given edge. */
    const endOf: (HalfEdge, EdgeState<nat>) -> Option<nat>

    var beachline: RBTree
    var circleEvents: RBTree
    var arcs: map<nat, Arc>
    var events: map<nat, CircleEvent>
    var firstCircleEvent: Option<nat>
    var beachSectionJunkyard: seq<nat>
    var circleEventJunkyard: seq<nat>
    var vertexJunkyard: seq<nat>
    var edgeJunkyard: seq<nat>
    var cellJunkyard: seq<CellState>
    var vertexAt: map<nat, Pt>
    var vertices: seq<nat>
    var edgeAt: map<nat, EdgeState<nat>>
    var edges: seq<nat>
    var cells: seq<CellState>
    /** `site.voronoiId`, by site id. */
    var voronoiId: map<nat, nat>
    var toRecycle: Option<Diagram>
    /** The number of arc, event, vertex and edge objects ever allocated: the next fresh id of each. */
    var arcCount: nat
    var eventCount: nat
    var vertexCount: nat
    var edgeCount: nat

    /** The arcs of the beachline, left to right. */
    function Beach(): seq<nat>
      reads this`beachline, beachline
    {
      beachline.Elements()
    }

    /** The circle events, in the order they will be handled. */
    function Queue(): seq<nat>
      reads this`circleEvents, circleEvents
    {
      circleEvents.Elements()
    }

    /** The sweep's invariant: both trees are valid and distinct, and `Sweeping` holds of their contents. */
    predicate Valid()
      reads this`beachline, this`circleEvents, this`arcs, this`events, this`firstCircleEvent,
        this`beachSectionJunkyard, this`circleEventJunkyard, this`arcCount, this`eventCount,
        beachline, circleEvents
    {
      beachline != circleEvents && beachline.Valid() && circleEvents.Valid()
      && Sweeping(Beach(), Queue(), arcs, events, firstCircleEvent, beachSectionJunkyard, circleEventJunkyard, arcCount, eventCount)
    }

    /**
     * Voronoi.constructor: empty pools and no diagram.  The trees exist from the start
     * (the source creates them on the first reset) and the output lists start empty.
     */
    constructor(sqrt: real -> real, angle: (Site, Option<Site>, Option<Pt>, Option<Pt>) -> real,
                startOf: (HalfEdge, EdgeState<nat>) -> Option<nat>, endOf: (HalfEdge, EdgeState<nat>) -> Option<nat>)
      ensures Valid() && Beach() == [] && Queue() == [] && firstCircleEvent == None
      ensures beachSectionJunkyard == [] && circleEventJunkyard == [] && vertexJunkyard == [] && edgeJunkyard == [] && cellJunkyard == []
      ensures vertices == [] && edges == [] && cells == [] && toRecycle == None
      ensures this.sqrt == sqrt && this.angle == angle && this.startOf == startOf && this.endOf == endOf
      ensures fresh(beachline) && fresh(circleEvents)
    {
      this.sqrt, this.angle, this.startOf, this.endOf := sqrt, angle, startOf, endOf;
      beachline := new RBTree();
      circleEvents := new RBTree();
      arcs, events, firstCircleEvent := map[], map[], None;
      beachSectionJunkyard, circleEventJunkyard, vertexJunkyard, edgeJunkyard, cellJunkyard := [], [], [], [], [];
      vertexAt, vertices, edgeAt, edges, cells := map[], [], map[], [], [];
      voronoiId, toRecycle := map[], None;
      arcCount, eventCount, vertexCount, edgeCount := 0, 0, 0, 0;
    }

    /**
     * Voronoi.reset: every arc left on the beachline goes to the arc pool, left to
     * right; both trees are emptied, there is no first circle event, and the output
     * lists are emptied.  The queue is empty whenever the sweep resets (before it starts
     * and once it has handled every event).
     */
    method Reset()
      requires Valid() && Queue() == []
      modifies this`beachSectionJunkyard, this`firstCircleEvent, this`vertices, this`edges, this`cells, beachline, circleEvents
      ensures Valid() && Beach() == [] && Queue() == [] && firstCircleEvent == None
      ensures beachSectionJunkyard == old(beachSectionJunkyard) + old(Beach())
      ensures vertices == [] && edges == [] && cells == []
      ensures vertexAt == old(vertexAt) && edgeAt == old(edgeAt)
    {
      var junk := Thread(beachline);
      SweepingReset(junk, arcs, events, beachSectionJunkyard, circleEventJunkyard, arcCount, eventCount);
      beachSectionJunkyard := beachSectionJunkyard + junk;
      beachline.root := Nil;
      circleEvents.root := Nil;
      firstCircleEvent := None;
      vertices, edges, cells := [], [], [];
    }
    /** Both sites have a cell: what createEdge needs of its two sites. */
    predicate HasCells(a: Site, b: Site)
      reads this`voronoiId, this`cells
    {
      CellIndex(a).Some? && CellIndex(b).Some?
    }

    /** The parts of the state `After` records. */
    ghost function Now(): After
      reads this`beachline, beachline, this`beachSectionJunkyard, this`arcs, this`edges, this`edgeAt
    {
      After(Beach(), beachSectionJunkyard, arcs, edges, edgeAt)
    }

    /** The parts of the state `Before` records. */
    ghost function Snap(): Before
      reads this`events, this`edges, this`edgeAt, this`voronoiId, this`cells
    {
      Before(events, edges, edgeAt, voronoiId, |cells|)
    }

    /** The arcs, edges and vertices, as one value. */
    ghost function Grown(): Growth
      reads this`arcs, this`edges, this`edgeAt, this`vertices, this`vertexAt
    {
      Growth(arcs, edges, edgeAt, vertices, vertexAt)
    }

    /** `cells[site.voronoiId]`: the index of the site's cell, none when the site has no id or no cell there. */
    function CellIndex(s: Site): (i: Option<nat>)
      reads this`voronoiId, this`cells
      ensures i.Some? <==> s.id in voronoiId && voronoiId[s.id] < |cells|
      ensures i.Some? ==> i.value == voronoiId[s.id]
    {
      if s.id in voronoiId && voronoiId[s.id] < |cells| then Some(voronoiId[s.id]) else None
    }

    /**
     * Voronoi.createVertex: the last pooled vertex moved to (x, y), or a new one, appended
     * to the vertices of the diagram.
     */
    method CreateVertex(x: real, y: real) returns (v: nat)
      modifies this`vertexJunkyard, this`vertexAt, this`vertices, this`vertexCount
      ensures Took(old(vertexJunkyard), old(vertexCount), v, vertexJunkyard, vertexCount)
      ensures vertexAt == old(vertexAt)[v := Pt(x, y)] && vertices == old(vertices) + [v]
    {
      if vertexJunkyard != [] {
        v := vertexJunkyard[|vertexJunkyard| - 1];
        vertexJunkyard := Popped(vertexJunkyard);
      } else {
        v := vertexCount;
        vertexCount := vertexCount + 1;
      }
      vertexAt := vertexAt[v := Pt(x, y)];
      vertices := vertices + [v];
    }

    /** Voronoi.createCell: a pooled cell re-initialised for `site`, or a new one; either way a blank cell. */
    method CreateCell(site: Site) returns (c: CellState)
      modifies this`cellJunkyard
      ensures c == Blank(site)
      ensures cellJunkyard == if old(cellJunkyard) == [] then [] else Popped(old(cellJunkyard))
    {
      if cellJunkyard != [] {
        cellJunkyard := Popped(cellJunkyard);
      }
      c := Blank(site);
    }

    /** The id of a pooled object, or a fresh one (the edge pool). */
    method TakeEdge() returns (e: nat)
      modifies this`edgeJunkyard, this`edgeCount
      ensures Took(old(edgeJunkyard), old(edgeCount), e, edgeJunkyard, edgeCount)
    {
      if edgeJunkyard != [] {
        e := edgeJunkyard[|edgeJunkyard| - 1];
        edgeJunkyard := Popped(edgeJunkyard);
      } else {
        e := edgeCount;
        edgeCount := edgeCount + 1;
      }
    }

    /** The half-edge HalfEdge.constructor makes for `site` on the edge `e` (state `es`), facing `other`. */
    function HalfEdgeOf(e: nat, es: EdgeState<nat>, site: Site, other: Option<Site>): (h: HalfEdge)
      reads this`vertexAt
      ensures h.edge == e && h.site == site && h.other == other
    {
      HalfEdgeAt(angle, vertexAt, e, es, site, other)
    }

    /**
     * Voronoi.createEdge: an edge between the sites `l` and `r` (pooled or new, in the
     * state `NewEdgeState` gives it), appended to the edges, and a half-edge for it in the
     * cell of each site, `l`'s first.  `ok` is false when a site has no cell, where the
     * source throws: the edge is then already listed, and `l`'s half-edge already added
     * when only `r` lacks a cell.
     */
    method CreateEdge(l: Site, r: Site, va: Option<nat>, vb: Option<nat>) returns (e: nat, ok: bool)
      modifies this`edgeJunkyard, this`edgeAt, this`edges, this`edgeCount, this`cells
      ensures SameSites(old(cells), cells)
      ensures Took(old(edgeJunkyard), old(edgeCount), e, edgeJunkyard, edgeCount)
      ensures edgeAt == old(edgeAt)[e := NewEdgeState(l, r, va, vb)] && edges == old(edges) + [e]
      ensures ok <==> old(CellIndex(l)).Some? && old(CellIndex(r)).Some?
      ensures |cells| == |old(cells)|
      ensures old(CellIndex(l)).None? ==> cells == old(cells)
      ensures old(CellIndex(l)).Some? ==> var hl := HalfEdgeOf(e, edgeAt[e], l, Some(r));
        var withL := AddTo(old(cells), old(CellIndex(l)).value, hl);
        if old(CellIndex(r)).None? then cells == withL
        else cells == AddTo(withL, old(CellIndex(r)).value, HalfEdgeOf(e, edgeAt[e], r, Some(l)))
      ensures cells == Paired(angle, voronoiId, vertexAt, old(cells), e, NewEdgeState(l, r, va, vb), l, r)
    {
      e := TakeEdge();
      var es := NewEdgeState(l, r, va, vb);
      edgeAt := edgeAt[e := es];
      edges := edges + [e];
      var il, ir := CellIndex(l), CellIndex(r);
      if il.None? {
        return e, false;
      }
      cells := AddTo(cells, il.value, HalfEdgeOf(e, es, l, Some(r)));
      if ir.None? {
        return e, false;
      }
      cells := AddTo(cells, ir.value, HalfEdgeOf(e, es, r, Some(l)));
      ok := true;
    }

    /**
     * createEdge as the sweep sees it: a new listed edge, and whether both sites have cells.
     * Wraps `CreateEdge`.
     */
    method NewEdge(l: Site, r: Site, va: Option<nat>, vb: Option<nat>) returns (e: nat, ok: bool)
      modifies this`edgeJunkyard, this`edgeAt, this`edges, this`edgeCount, this`cells
      ensures SameSites(old(cells), cells)
      ensures Took(old(edgeJunkyard), old(edgeCount), e, edgeJunkyard, edgeCount)
      ensures edgeAt == old(edgeAt)[e := NewEdgeState(l, r, va, vb)] && edges == old(edges) + [e]
      ensures ok <==> old(CellIndex(l)).Some? && old(CellIndex(r)).Some?
      ensures |cells| == |old(cells)| && cells == Paired(angle, voronoiId, vertexAt, old(cells), e, NewEdgeState(l, r, va, vb), l, r)
    {
      e, ok := CreateEdge(l, r, va, vb);
    }

    /** Voronoi.createBorderEdge: an edge along the bounding box, on `lSite`'s side only, from `va` to `vb`. */
    method CreateBorderEdge(lSite: Site, va: nat, vb: nat) returns (e: nat)
      modifies this`edgeJunkyard, this`edgeAt, this`edges, this`edgeCount
      ensures Took(old(edgeJunkyard), old(edgeCount), e, edgeJunkyard, edgeCount)
      ensures edgeAt == old(edgeAt)[e := EdgeState(Some(lSite), None, Some(va), Some(vb))] && edges == old(edges) + [e]
    {
      e := TakeEdge();
      edgeAt := edgeAt[e := EdgeState(Some(lSite), None, Some(va), Some(vb))];
      edges := edges + [e];
    }

    /**
     * Voronoi.createBeachSection: the last pooled arc given the site `site` (keeping the
     * edge it had), or a new arc; either way off the beachline and without a pending event.
     */
    method CreateBeachSection(site: Site) returns (a: nat)
      requires Valid()
      modifies this`arcs, this`beachSectionJunkyard, this`arcCount
      ensures Valid() && a !in Beach() && a in arcs && a !in beachSectionJunkyard && a < arcCount
      ensures Took(old(beachSectionJunkyard), old(arcCount), a, beachSectionJunkyard, arcCount)
      ensures arcs == old(arcs)[a := if a in old(arcs) && old(beachSectionJunkyard) != [] then old(arcs)[a].(site := site) else Arc(site, None, None)]
      ensures arcs[a].site == site && arcs[a].circle.None?
    {
      if beachSectionJunkyard != [] {
        a := beachSectionJunkyard[|beachSectionJunkyard| - 1];
        SweepingPopArc(Beach(), Queue(), arcs, events, firstCircleEvent, beachSectionJunkyard, circleEventJunkyard, arcCount, eventCount, site);
        DistinctPopped(beachSectionJunkyard);
        beachSectionJunkyard := Popped(beachSectionJunkyard);
        arcs := arcs[a := arcs[a].(site := site)];
      } else {
        a := arcCount;
        SweepingNewArc(Beach(), Queue(), arcs, events, firstCircleEvent, beachSectionJunkyard, circleEventJunkyard, arcCount, eventCount, site);
        arcs := arcs[a := Arc(site, None, None)];
        arcCount := arcCount + 1;
      }
    }

    /**
     * Voronoi.detachCircleEvent: the arc's pending event, if any, leaves the queue for the
     * pool and the arc forgets it; when it was the first event, the next one is first.
     */
    method DetachCircleEvent(arc: nat)
      requires Valid() && arc in Beach()
      modifies this`arcs, this`firstCircleEvent, this`circleEventJunkyard, circleEvents
      ensures Valid()
      ensures arc in old(arcs) && arcs == old(arcs)[arc := old(arcs)[arc].(circle := None)]
      ensures old(arcs)[arc].circle.None? ==>
        Queue() == old(Queue()) && circleEventJunkyard == old(circleEventJunkyard) && firstCircleEvent == old(firstCircleEvent)
      ensures old(arcs)[arc].circle.Some? ==> var e := old(arcs)[arc].circle.value;
        e in old(Queue()) && Queue() == Without(old(Queue()), e) && circleEventJunkyard == old(circleEventJunkyard) + [e]
    {
      var a := arcs[arc];
      if a.circle.Some? {
        DropCircleEvent(arc, a.circle.value);
      } else {
        assert a.(circle := None) == a;
      }
    }

    /** The removal detachCircleEvent makes when the arc has the pending event `e`. */
    method DropCircleEvent(arc: nat, e: nat)
      requires Valid() && arc in Beach() && arc in arcs && arcs[arc].circle == Some(e)
      modifies this`arcs, this`firstCircleEvent, this`circleEventJunkyard, circleEvents
      ensures Valid()
      ensures arcs == old(arcs)[arc := old(arcs)[arc].(circle := None)]
      ensures e in old(Queue()) && Queue() == Without(old(Queue()), e) && circleEventJunkyard == old(circleEventJunkyard) + [e]
    {
      ghost var b, q := Beach(), Queue();
      SweepingDetach(b, q, e, arcs, events, firstCircleEvent, beachSectionJunkyard, circleEventJunkyard, arcCount, eventCount, arc);
      var first := if circleEvents.previous[e].None? then circleEvents.next[e] else firstCircleEvent;
      NextFirst(q, e, circleEvents.previous, circleEvents.next, firstCircleEvent, first);
      circleEvents.RemoveNode(e);
      firstCircleEvent, circleEventJunkyard, arcs := first, circleEventJunkyard + [e], arcs[arc := arcs[arc].(circle := None)];
    }

    /**
     * The place attachCircleEvent finds for the event `c` of `arc`: the event id comes from
     * the pool (or is new), the event goes into the queue after every event strictly
     * before it and before the others, and it is first when nothing is before it.
     */
    method Enqueue(arc: nat, c: CircleEvent) returns (id: nat)
      requires Valid() && arc in Beach() && arc in arcs && arcs[arc].circle.None? && c.arc == arc
      modifies this`arcs, this`events, this`firstCircleEvent, this`circleEventJunkyard, this`eventCount, circleEvents
      ensures Valid()
      ensures Took(old(circleEventJunkyard), old(eventCount), id, circleEventJunkyard, eventCount)
      ensures id !in old(Queue()) && events == old(events)[id := c]
      ensures arcs == old(arcs)[arc := old(arcs)[arc].(circle := Some(id))]
      ensures var q, k := old(Queue()), Rank(old(Queue()), old(events), c);
        Queue() == q[..k] + [id] + q[k..]
    {
      ghost var q := Queue();
      ghost var junk, count := circleEventJunkyard, eventCount;
      id := TakeEvent();
      var pred, bq, aq := SearchQueue(circleEvents, events, c);
      SweepingEnqueue(Beach(), q, arcs, events, firstCircleEvent, beachSectionJunkyard, junk, arcCount, count,
                      arc, c, id, circleEventJunkyard, eventCount, pred, bq, aq);
      circleEvents.InsertSuccessor(pred, id);
      events, arcs := events[id := c], arcs[arc := arcs[arc].(circle := Some(id))];
      firstCircleEvent := if pred.None? then Some(id) else firstCircleEvent;
    }

    /** The id of a pooled circle event, or a fresh one. */
    method TakeEvent() returns (e: nat)
      modifies this`circleEventJunkyard, this`eventCount
      ensures Took(old(circleEventJunkyard), old(eventCount), e, circleEventJunkyard, eventCount)
    {
      if circleEventJunkyard != [] {
        e := circleEventJunkyard[|circleEventJunkyard| - 1];
        circleEventJunkyard := Popped(circleEventJunkyard);
      } else {
        e := eventCount;
        eventCount := eventCount + 1;
      }
    }

    /**
     * Voronoi.attachCircleEvent: when the arc has an arc on each side, their sites differ
     * and the three sites turn clockwise by more than the tolerance, one circle event at
     * the bottom of their circle is queued for the arc (`CollapseIn`); otherwise nothing
     * changes.
     */
    method AttachCircleEvent(arc: nat) returns (id: Option<nat>)
      requires Valid() && arc in Beach() && arc in arcs && arcs[arc].circle.None?
      modifies this`arcs, this`events, this`firstCircleEvent, this`circleEventJunkyard, this`eventCount, circleEvents
      ensures Valid()
      ensures id.Some? <==> old(CollapseIn(sqrt, Beach(), arcs, arc)).Some?
      ensures id.None? ==> (arcs == old(arcs) && events == old(events) && Queue() == old(Queue())
        && circleEventJunkyard == old(circleEventJunkyard) && eventCount == old(eventCount))
      ensures id.Some? ==> var c := EventFor(arc, old(arcs)[arc].site, old(CollapseIn(sqrt, Beach(), arcs, arc)).value);
        var q, k := old(Queue()), Rank(old(Queue()), old(events), c);
        Took(old(circleEventJunkyard), old(eventCount), id.value, circleEventJunkyard, eventCount)
        && id.value !in q && events == old(events)[id.value := c]
        && arcs == old(arcs)[arc := old(arcs)[arc].(circle := id)]
        && Queue() == q[..k] + [id.value] + q[k..]
    {
      ghost var b := Beach();
      ghost var i := IndexOf(b, arc);
      assert LinkedAt(b, i, beachline.previous, beachline.next);
      var l, r := beachline.previous[arc], beachline.next[arc];
      if l.None? || r.None? {
        return None;
      }
      assert l.value in b && r.value in b;
      var k := CollapseOf(sqrt, arcs[l.value].site, arcs[arc].site, arcs[r.value].site);
      if k.None? {
        return None;
      }
      var e := Enqueue(arc, EventFor(arc, arcs[arc].site, k.value));
      id := Some(e);
    }

    /** The arc, which has no pending event, leaves the beachline for the arc pool. */
    method DropArc(arc: nat)
      requires Valid() && arc in Beach() && arc in arcs && arcs[arc].circle.None?
      modifies this`beachSectionJunkyard, beachline
      ensures Valid()
      ensures Beach() == Without(old(Beach()), arc) && beachSectionJunkyard == old(beachSectionJunkyard) + [arc]
    {
      SweepingRemoveArc(Beach(), arc, Queue(), arcs, events, firstCircleEvent, beachSectionJunkyard, circleEventJunkyard, arcCount, eventCount);
      beachline.RemoveNode(arc);
      beachSectionJunkyard := beachSectionJunkyard + [arc];
    }

    /**
     * Voronoi.detachBeachSection: the arc's pending event is detached, then the arc
     * leaves the beachline for the arc pool.
     */
    method DetachBeachSection(arc: nat)
      requires Valid() && arc in Beach()
      modifies this`arcs, this`firstCircleEvent, this`circleEventJunkyard, circleEvents, this`beachSectionJunkyard, beachline
      ensures Valid()
      ensures Beach() == Without(old(Beach()), arc) && beachSectionJunkyard == old(beachSectionJunkyard) + [arc]
      ensures arc in old(arcs) && arcs == old(arcs)[arc := old(arcs)[arc].(circle := None)]
      ensures old(arcs)[arc].circle.None? ==> (Queue() == old(Queue()) && circleEventJunkyard == old(circleEventJunkyard))
      ensures old(arcs)[arc].circle.Some? ==> var e := old(arcs)[arc].circle.value;
        e in old(Queue()) && Queue() == Without(old(Queue()), e) && circleEventJunkyard == old(circleEventJunkyard) + [e]
    {
      DetachCircleEvent(arc);
      DropArc(arc);
    }

    /**
     * The look left of Voronoi.removeBeachSection, once the arc at position `k` of the
     * beachline `b` has been detached: from `start`, the arc that was left of it, each arc
     * that collapses at (`x`, `y`) too is detached (into the arc pool in the order met)
     * and put in front of the disappearing transitions `d`; the first one that does not
     * is put in front too and loses its pending event.  `ok` is false where the source
     * reads past the first arc.
     */
    method LookLeft(start: Option<nat>, x: real, y: real, d: seq<nat>, ghost b: seq<nat>, ghost k: nat) returns (ok: bool, d': seq<nat>, ghost j: int)
      requires Valid() && k < |b| && Distinct(b) && Beach() == b[..k] + b[k + 1..]
      requires start == if k == 0 then None else Some(b[k - 1])
      modifies this`arcs, this`firstCircleEvent, this`circleEventJunkyard, circleEvents, this`beachSectionJunkyard, beachline
      ensures Valid() && j == LeftStop(b, old(arcs), events, k - 1, x, y) && (ok <==> j >= 0)
      ensures ok ==>
        Beach() == b[..j + 1] + b[k + 1..] && d' == b[j..k] + d
        && arcs == Uncircled(old(arcs), b[j..k]) && beachSectionJunkyard == old(beachSectionJunkyard) + Reversed(b[j + 1..k])
    {
      var cur;
      cur, d', j := ScanLeft(start, x, y, d, b, k);
      if cur.None? {
        return false, d', j;
      }
      assert [b[j]] + (b[j + 1..k] + d) == b[j..k] + d by {
        assert b[j..k] == [b[j]] + b[j + 1..k];
      }
      d' := [cur.value] + d';
      StopLeft(cur.value, b, j, k, old(arcs));
      ok := true;
    }

    /** The loop of the look left: it stops at the first arc that does not collapse at (`x`, `y`), or past the first arc. */
    method ScanLeft(start: Option<nat>, x: real, y: real, d: seq<nat>, ghost b: seq<nat>, ghost k: nat) returns (cur: Option<nat>, d': seq<nat>, ghost j: int)
      requires Valid() && k < |b| && Distinct(b) && Beach() == b[..k] + b[k + 1..]
      requires start == if k == 0 then None else Some(b[k - 1])
      modifies this`arcs, this`firstCircleEvent, this`circleEventJunkyard, circleEvents, this`beachSectionJunkyard, beachline
      ensures Valid() && j == LeftStop(b, old(arcs), events, k - 1, x, y) && cur == (if j < 0 then None else Some(b[j]))
      ensures Scan(Beach(), arcs, beachSectionJunkyard, d') == LeftScan(b, k, j + 1, old(arcs), old(beachSectionJunkyard), d)
      ensures j >= 0 ==> b[j] in arcs && arcs[b[j]] == old(arcs)[b[j]]
    {
      ghost var i: nat, arcs0, junk0 := k, arcs, beachSectionJunkyard;
      var ev := events;
      cur, d' := start, d;
      if k > 0 {
        assert b[k - 1] in Beach();
      }
      assert Uncircled(arcs, b[k..k]) == arcs;
      while cur.Some? && Close(arcs, ev, cur.value, x, y)
        invariant LeftScanning(b, k, i, cur, d, d', arcs0, junk0, ev, x, y) == true
        decreases i
      {
        var a := cur.value;
        cur := PassLeft(a, x, y, ev, d, d', b, i, k, arcs0, junk0);
        d', i := [a] + d', i - 1;
      }
      LeftStopHere(b, arcs0, arcs, ev, i, x, y);
      j := i - 1;
    }

    /**
     * The state of the look left of the arc at position `k` of `b` once it has passed the
     * arcs from `i` to `k`: `cur` is the arc before them, the beachline, the arcs, the arc
     * pool and the disappearing transitions `d'` are as `LeftScan` says, and the look left
     * will stop where it would have stopped from `k`.  The loop states it as one equation,
     * `LeftScanning(…) == true`, so that it is checked as one fact.
     */
    ghost predicate LeftScanning(b: seq<nat>, k: nat, i: nat, cur: Option<nat>, d: seq<nat>, d': seq<nat>,
                                 arcs0: map<nat, Arc>, junk0: seq<nat>, ev: map<nat, CircleEvent>, x: real, y: real)
      reads this`beachline, this`circleEvents, this`arcs, this`events, this`firstCircleEvent,
        this`beachSectionJunkyard, this`circleEventJunkyard, this`arcCount, this`eventCount,
        beachline, circleEvents
    {
      Valid() && Distinct(b) && i <= k < |b| && cur == (if i == 0 then None else Some(b[i - 1]))
      && Scan(Beach(), arcs, beachSectionJunkyard, d') == LeftScan(b, k, i, arcs0, junk0, d)
      && (i > 0 ==> b[i - 1] in arcs0 && b[i - 1] in arcs && arcs[b[i - 1]] == arcs0[b[i - 1]])
      && LeftStop(b, arcs0, ev, k - 1, x, y) == LeftStop(b, arcs0, ev, i - 1, x, y)
    }

    /** The end of the look left: the arc `a`, at position `j` of `b`, stays on the beachline and loses its pending event. */
    method StopLeft(a: nat, ghost b: seq<nat>, ghost j: nat, ghost k: nat, ghost arcs0: map<nat, Arc>)
      requires Valid() && Distinct(b) && j < k < |b| && a == b[j] && a in Beach() && a in arcs0
      requires arcs == Uncircled(arcs0, b[j + 1..k])
      modifies this`arcs, this`firstCircleEvent, this`circleEventJunkyard, circleEvents
      ensures Valid() && Beach() == old(Beach()) && arcs == Uncircled(arcs0, b[j..k])
    {
      LeftStep(b, j, k, arcs0, arcs, []);
      DetachCircleEvent(a);
    }

    /**
     * One pass of the look left: the arc `a`, right before position `i` of `b`, collapses
     * at the vertex too and is detached; the arc left of it comes next.
     */
    method PassLeft(a: nat, x: real, y: real, ev: map<nat, CircleEvent>, d: seq<nat>, d': seq<nat>,
                    ghost b: seq<nat>, ghost i: nat, ghost k: nat, ghost arcs0: map<nat, Arc>, ghost junk0: seq<nat>) returns (previous: Option<nat>)
      requires LeftScanning(b, k, i, Some(a), d, d', arcs0, junk0, ev, x, y) && Close(arcs, ev, a, x, y)
      modifies this`arcs, this`firstCircleEvent, this`circleEventJunkyard, circleEvents, this`beachSectionJunkyard, beachline
      ensures LeftScanning(b, k, i - 1, previous, d, [a] + d', arcs0, junk0, ev, x, y)
    {
      ghost var s := Scan(Beach(), arcs, beachSectionJunkyard, d');
      LeftStopStep(b, arcs0, arcs, ev, i, x, y);
      assert LinkedAt(Beach(), i - 1, beachline.previous, beachline.next);
      previous := beachline.previous[a];
      if i > 1 {
        assert b[i - 2] in Beach();
      }
      DetachBeachSection(a);
      LeftScanStep(b, k, i, arcs0, junk0, d, s, Beach(), arcs, beachSectionJunkyard, [a] + d');
    }

    /**
     * The look right of Voronoi.removeBeachSection, once the look left has left the arcs
     * before position `q` of the beachline `b` and the arcs from `q` to `k` are gone: from
     * `start`, the arc right of position `k`, each arc that collapses at (`x`, `y`) too is
     * detached (into the arc pool in the order met) and put after the disappearing
     * transitions `d`; the first one that does not is put after them too and loses its
     * pending event.  `ok` is false where the source reads past the last arc.
     */
    method LookRight(start: Option<nat>, x: real, y: real, d: seq<nat>, ghost b: seq<nat>, ghost q: nat, ghost k: nat)
      returns (ok: bool, d': seq<nat>, ghost m: int)
      requires Valid() && Distinct(b) && q <= k < |b| && Beach() == b[..q] + b[k + 1..]
      requires start == if k + 1 == |b| then None else Some(b[k + 1])
      modifies this`arcs, this`firstCircleEvent, this`circleEventJunkyard, circleEvents, this`beachSectionJunkyard, beachline
      ensures Valid() && m == RightStop(b, old(arcs), events, k + 1, x, y) && (ok <==> m < |b|)
      ensures ok ==>
        Beach() == b[..q] + b[m..] && d' == d + b[k + 1..m + 1]
        && arcs == Uncircled(old(arcs), b[k + 1..m + 1]) && beachSectionJunkyard == old(beachSectionJunkyard) + b[k + 1..m]
    {
      var cur;
      cur, d', m := ScanRight(start, x, y, d, b, q, k);
      if cur.None? {
        return false, d', m;
      }
      assert (d + b[k + 1..m]) + [b[m]] == d + b[k + 1..m + 1] by {
        assert b[k + 1..m + 1] == b[k + 1..m] + [b[m]];
      }
      d' := d' + [cur.value];
      StopRight(cur.value, b, k, m, old(arcs));
      ok := true;
    }

    /** The loop of the look right: it stops at the first arc that does not collapse at (`x`, `y`), or past the last arc. */
    method ScanRight(start: Option<nat>, x: real, y: real, d: seq<nat>, ghost b: seq<nat>, ghost q: nat, ghost k: nat)
      returns (cur: Option<nat>, d': seq<nat>, ghost m: int)
      requires Valid() && Distinct(b) && q <= k < |b| && Beach() == b[..q] + b[k + 1..]
      requires start == if k + 1 == |b| then None else Some(b[k + 1])
      modifies this`arcs, this`firstCircleEvent, this`circleEventJunkyard, circleEvents, this`beachSectionJunkyard, beachline
      ensures Valid() && m == RightStop(b, old(arcs), events, k + 1, x, y) && cur == (if m == |b| then None else Some(b[m]))
      ensures Scan(Beach(), arcs, beachSectionJunkyard, d') == RightScan(b, q, k, m, old(arcs), old(beachSectionJunkyard), d)
      ensures m < |b| ==> b[m] in arcs && arcs[b[m]] == old(arcs)[b[m]]
    {
      ghost var i: nat, arcs0, junk0 := k + 1, arcs, beachSectionJunkyard;
      var ev := events;
      cur, d' := start, d;
      if k + 1 < |b| {
        assert b[k + 1] in Beach();
      }
      assert Uncircled(arcs, b[k + 1..k + 1]) == arcs;
      while cur.Some? && Close(arcs, ev, cur.value, x, y)
        invariant RightScanning(b, q, k, i, cur, d, d', arcs0, junk0, ev, x, y) == true
        decreases |b| - i
      {
        cur, d', i := PassRight(cur.value, x, y, ev, d, d', b, q, k, i, arcs0, junk0);
      }
      RightStopHere(b, arcs0, arcs, ev, i, x, y);
      m := i;
    }

    /**
     * The state of the look right once it has passed the arcs from `k + 1` up to `i` of
     * `b`, the arcs before position `q` staying on the beachline: `cur` is the arc after
     * them, the beachline, the arcs, the arc pool and the disappearing transitions `d'` are
     * as `RightScan` says, and the look right will stop where it would have stopped from
     * `k + 1`.  The loop states it as one equation, `RightScanning(…) == true`, so that it
     * is checked as one fact.
     */
    ghost predicate RightScanning(b: seq<nat>, q: nat, k: nat, i: nat, cur: Option<nat>, d: seq<nat>, d': seq<nat>,
                                  arcs0: map<nat, Arc>, junk0: seq<nat>, ev: map<nat, CircleEvent>, x: real, y: real)
      reads this`beachline, this`circleEvents, this`arcs, this`events, this`firstCircleEvent,
        this`beachSectionJunkyard, this`circleEventJunkyard, this`arcCount, this`eventCount,
        beachline, circleEvents
    {
      Valid() && Distinct(b) && q <= k < i <= |b| && cur == (if i == |b| then None else Some(b[i]))
      && Scan(Beach(), arcs, beachSectionJunkyard, d') == RightScan(b, q, k, i, arcs0, junk0, d)
      && (i < |b| ==> b[i] in arcs0 && b[i] in arcs && arcs[b[i]] == arcs0[b[i]])
      && RightStop(b, arcs0, ev, k + 1, x, y) == RightStop(b, arcs0, ev, i, x, y)
    }

    /** The end of the look right: the arc `a`, at position `m` of `b`, stays on the beachline and loses its pending event. */
    method StopRight(a: nat, ghost b: seq<nat>, ghost k: nat, ghost m: nat, ghost arcs0: map<nat, Arc>)
      requires Valid() && Distinct(b) && k < m < |b| && a == b[m] && a in Beach() && a in arcs0
      requires arcs == Uncircled(arcs0, b[k + 1..m])
      modifies this`arcs, this`firstCircleEvent, this`circleEventJunkyard, circleEvents
      ensures Valid() && Beach() == old(Beach()) && arcs == Uncircled(arcs0, b[k + 1..m + 1])
    {
      RightStep(b, 0, k, m, arcs0, arcs);
      DetachCircleEvent(a);
    }

    /**
     * One pass of the look right: the arc `a`, at position `i` of `b`, collapses at the
     * vertex too and is detached; the arc right of it comes next.
     */
    method PassRight(a: nat, x: real, y: real, ev: map<nat, CircleEvent>, d: seq<nat>, d': seq<nat>,
                     ghost b: seq<nat>, ghost q: nat, ghost k: nat, ghost i: nat, ghost arcs0: map<nat, Arc>, ghost junk0: seq<nat>)
      returns (next: Option<nat>, d'': seq<nat>, ghost i': nat)
      requires RightScanning(b, q, k, i, Some(a), d, d', arcs0, junk0, ev, x, y) && Close(arcs, ev, a, x, y)
      modifies this`arcs, this`firstCircleEvent, this`circleEventJunkyard, circleEvents, this`beachSectionJunkyard, beachline
      ensures d'' == d' + [a] && i' == i + 1 && RightScanning(b, q, k, i', next, d, d'', arcs0, junk0, ev, x, y)
    {
      ghost var s := Scan(Beach(), arcs, beachSectionJunkyard, d');
      i' := i + 1;
      RightStopStep(b, arcs0, arcs, ev, i, i', x, y);
      assert Beach()[q] == a;
      assert LinkedAt(Beach(), q, beachline.previous, beachline.next);
      next := beachline.next[a];
      if i' < |b| {
        assert Beach()[q + 1] == b[i'];
        assert b[i'] in Beach();
      }
      DetachBeachSection(a);
      d'' := d' + [a];
      RightScanStep(b, q, k, i, i', arcs0, junk0, d, s, Beach(), arcs, beachSectionJunkyard, d'');
    }

    /** Voronoi.createBeachSection followed by beachline.insertSuccessor: a new arc for `site` right after `after` (first when none). */
    method InsertArc(site: Site, after: Option<nat>) returns (a: nat)
      requires Valid() && (after.Some? ==> after.value in Beach())
      modifies this`arcs, this`beachSectionJunkyard, this`arcCount, beachline
      ensures Valid() && Beach() == InsertAfter(old(Beach()), after, a) && a !in old(Beach())
      ensures Took(old(beachSectionJunkyard), old(arcCount), a, beachSectionJunkyard, arcCount)
      ensures arcs == old(arcs)[a := if a in old(arcs) && old(beachSectionJunkyard) != [] then old(arcs)[a].(site := site) else Arc(site, None, None)]
      ensures arcs[a].site == site && arcs[a].circle.None?
    {
      a := CreateBeachSection(site);
      SweepingInsertArc(Beach(), Queue(), arcs, events, firstCircleEvent, beachSectionJunkyard, circleEventJunkyard, arcCount, eventCount, after, a);
      beachline.InsertSuccessor(after, a);
    }

    /** `arc.edge = edge`. */
    method SetEdge(arc: nat, edge: Option<nat>)
      requires Valid() && arc in arcs
      modifies this`arcs
      ensures Valid() && arcs == old(arcs)[arc := old(arcs)[arc].(edge := edge)]
    {
      SweepingEdge(Beach(), Queue(), arcs, events, firstCircleEvent, beachSectionJunkyard, circleEventJunkyard, arcCount, eventCount, arc, edge);
      arcs := arcs[arc := arcs[arc].(edge := edge)];
    }

    /**
     * Voronoi.addBeachSection: the search finds the arcs `lArc` and `rArc` the site lands
     * between (`Landed`, on the decisions `p` of the arcs before the change), a new arc
     * for the site goes right after `lArc` (first when there is none), and then: nothing
     * more when the beachline was empty or the site lands left of the first arc; a split
     * of `lArc` with one new edge when both are the same arc; one new edge when the site
     * lands after the last arc; two new edges from one new vertex when it lands between
     * two arcs.  `ok` is false where the source throws (a site without a cell, an arc
     * without an edge, no arc on the left) or divides by zero (three collinear sites).
     */
    method AddBeachSection(site: Site)
      returns (ok: bool, newArc: nat, lArc: Option<nat>, rArc: Option<nat>, copy: nat, v: nat, e1: nat, e2: nat,
               ghost p: seq<Place>, ghost i: nat, ghost arrived: map<nat, Arc>)
      requires Valid()
      modifies this`arcs, this`beachSectionJunkyard, this`arcCount, beachline, this`firstCircleEvent, this`circleEventJunkyard,
        circleEvents, this`events, this`eventCount, this`vertexJunkyard, this`vertexAt, this`vertices, this`vertexCount,
        this`edgeJunkyard, this`edgeAt, this`edges, this`edgeCount, this`cells
      ensures SameSites(old(cells), cells)
      ensures Valid()
      ensures Decisions(sqrt, old(Beach()), old(arcs), site, p) && Landed(p, old(Beach()), i, lArc, rArc)
      ensures newArc !in old(Beach()) && (lArc.Some? ==> lArc.value in old(Beach()))
      ensures var b := InsertAfter(old(Beach()), lArc, newArc);
        if lArc.Some? && lArc == rArc then Beach() == InsertAfter(b, Some(newArc), copy) && copy !in b else Beach() == b
      ensures newArc in arrived && arrived == old(arcs)[newArc := arrived[newArc]] && arrived[newArc].site == site && arrived[newArc].circle.None?
      ensures Added(site, lArc, rArc, newArc, copy, v, e1, e2, ok, voronoiId, |cells|,
                      Growth(arrived, old(edges), old(edgeAt), old(vertices), old(vertexAt)), Grown()) == true
      ensures Attached(lArc, rArc, copy, ok, old(events), old(Queue())) == true
      ensures (lArc.Some? ==> lArc.value in old(arcs)) && (rArc.Some? ==> rArc.value in old(arcs))
      ensures cells == AddedCells(angle, voronoiId, vertexAt, old(cells), site, lArc, rArc, old(arcs), v, e1, e2, ok)
    {
      newArc, lArc, rArc, p, i := Arrive(site);
      arrived := arcs;
      assert Grown() == Growth(arrived, old(edges), old(edgeAt), old(vertices), old(vertexAt));
      ok, copy, v, e1, e2 := Settle(lArc, rArc, newArc, site);
    }

    /** The search of Voronoi.addBeachSection and the new arc for `site` right after the left arc found. */
    method Arrive(site: Site) returns (newArc: nat, lArc: Option<nat>, rArc: Option<nat>, ghost p: seq<Place>, ghost i: nat)
      requires Valid()
      modifies this`arcs, this`beachSectionJunkyard, this`arcCount, beachline
      ensures Valid() && cells == old(cells) && edges == old(edges) && vertices == old(vertices)
      ensures Decisions(sqrt, old(Beach()), old(arcs), site, p) && Landed(p, old(Beach()), i, lArc, rArc)
      ensures newArc !in old(Beach()) && Beach() == InsertAfter(old(Beach()), lArc, newArc)
      ensures newArc in Beach() && newArc in arcs && arcs[newArc].site == site && arcs[newArc].circle.None?
      ensures arcs == old(arcs)[newArc := arcs[newArc]]
      ensures lArc.Some? ==> lArc.value in old(Beach()) && lArc.value in Beach() && lArc.value in old(arcs) && lArc.value != newArc
      ensures rArc.Some? ==> rArc.value in old(Beach()) && rArc.value in Beach() && rArc.value in old(arcs) && rArc.value != newArc
    {
      ghost var b0 := Beach();
      p := DecisionsOf(sqrt, b0, arcs, site);
      lArc, rArc, i := FindLanding(site, p);
      LandedMembers(p, b0, i, lArc, rArc);
      newArc := InsertArc(site, lArc);
      InsertAfterMembers(b0, lArc, newArc);
    }

    /** The cases of Voronoi.addBeachSection once the new arc `newArc` for `site` is on the beachline. */
    method Settle(lArc: Option<nat>, rArc: Option<nat>, newArc: nat, site: Site) returns (ok: bool, copy: nat, v: nat, e1: nat, e2: nat)
      requires Valid() && newArc in Beach() && newArc in arcs && arcs[newArc].site == site
      requires lArc.Some? ==> lArc.value in Beach() && lArc.value in arcs && lArc.value != newArc
      requires rArc.Some? ==> rArc.value in Beach() && rArc.value in arcs && rArc.value != newArc
      modifies this`arcs, this`beachSectionJunkyard, this`arcCount, beachline, this`firstCircleEvent, this`circleEventJunkyard,
        circleEvents, this`events, this`eventCount, this`vertexJunkyard, this`vertexAt, this`vertices, this`vertexCount,
        this`edgeJunkyard, this`edgeAt, this`edges, this`edgeCount, this`cells
      ensures SameSites(old(cells), cells)
      ensures Valid()
      ensures lArc.Some? && lArc == rArc ==> Beach() == InsertAfter(old(Beach()), Some(newArc), copy) && copy !in old(Beach())
      ensures lArc.None? || lArc != rArc ==> Beach() == old(Beach())
      ensures Added(site, lArc, rArc, newArc, copy, v, e1, e2, ok, voronoiId, |cells|, old(Grown()), Grown()) == true
      ensures Attached(lArc, rArc, copy, ok, old(events), old(Queue())) == true
      ensures cells == AddedCells(angle, voronoiId, vertexAt, old(cells), site, lArc, rArc, old(arcs), v, e1, e2, ok)
    {
      copy, v, e1, e2 := 0, 0, 0, 0;
      if lArc.None? {
        return rArc.None?, copy, v, e1, e2;
      } else if rArc == lArc {
        ok, copy, v, e1, e2 := SettleSplit(lArc, rArc, newArc, site);
      } else {
        ok, copy, v, e1, e2 := SettleBeside(lArc, rArc, newArc, site);
      }
    }

    /** `Settle` where the site splits the arc `lArc`, which is also `rArc`: the copy joins the beachline. */
    method SettleSplit(lArc: Option<nat>, rArc: Option<nat>, newArc: nat, site: Site) returns (ok: bool, copy: nat, v: nat, e1: nat, e2: nat)
      requires Valid() && newArc in Beach() && newArc in arcs && arcs[newArc].site == site
      requires lArc.Some? ==> lArc.value in Beach() && lArc.value in arcs && lArc.value != newArc
      requires rArc.Some? ==> rArc.value in Beach() && rArc.value in arcs && rArc.value != newArc
      requires lArc.Some? && rArc == lArc
      modifies this`arcs, this`beachSectionJunkyard, this`arcCount, beachline, this`firstCircleEvent, this`circleEventJunkyard,
        circleEvents, this`events, this`eventCount, this`vertexJunkyard, this`vertexAt, this`vertices, this`vertexCount,
        this`edgeJunkyard, this`edgeAt, this`edges, this`edgeCount, this`cells
      ensures SameSites(old(cells), cells)
      ensures Valid()
      ensures lArc.Some? && lArc == rArc ==> Beach() == InsertAfter(old(Beach()), Some(newArc), copy) && copy !in old(Beach())
      ensures Added(site, lArc, rArc, newArc, copy, v, e1, e2, ok, voronoiId, |cells|, old(Grown()), Grown()) == true
      ensures Attached(lArc, rArc, copy, ok, old(events), old(Queue())) == true
      ensures cells == AddedCells(angle, voronoiId, vertexAt, old(cells), site, lArc, rArc, old(arcs), v, e1, e2, ok)
    {
      v, e2 := 0, 0;
      copy, e1, ok := SplitArc(lArc.value, newArc);
    }

    /** `Settle` where the site lands after the last arc `lArc` or between it and a distinct `rArc`: the beachline is unchanged. */
    method SettleBeside(lArc: Option<nat>, rArc: Option<nat>, newArc: nat, site: Site) returns (ok: bool, copy: nat, v: nat, e1: nat, e2: nat)
      requires Valid() && newArc in Beach() && newArc in arcs && arcs[newArc].site == site
      requires lArc.Some? ==> lArc.value in Beach() && lArc.value in arcs && lArc.value != newArc
      requires rArc.Some? ==> rArc.value in Beach() && rArc.value in arcs && rArc.value != newArc
      requires lArc.Some? && rArc != lArc
      modifies this`arcs, this`beachSectionJunkyard, this`arcCount, beachline, this`firstCircleEvent, this`circleEventJunkyard,
        circleEvents, this`events, this`eventCount, this`vertexJunkyard, this`vertexAt, this`vertices, this`vertexCount,
        this`edgeJunkyard, this`edgeAt, this`edges, this`edgeCount, this`cells
      ensures SameSites(old(cells), cells)
      ensures Valid()
      ensures lArc.None? || lArc != rArc ==> Beach() == old(Beach())
      ensures Added(site, lArc, rArc, newArc, copy, v, e1, e2, ok, voronoiId, |cells|, old(Grown()), Grown()) == true
      ensures Attached(lArc, rArc, copy, ok, old(events), old(Queue())) == true
      ensures cells == AddedCells(angle, voronoiId, vertexAt, old(cells), site, lArc, rArc, old(arcs), v, e1, e2, ok)
    {
      copy := 0;
      ok, v, e1, e2 := Extend(lArc.value, rArc, newArc, site);
    }

    /** The cases of Voronoi.addBeachSection where the site lands after the last arc `l` or between the distinct arcs `l` and `rArc`. */
    method Extend(l: nat, rArc: Option<nat>, newArc: nat, site: Site) returns (ok: bool, v: nat, e1: nat, e2: nat)
      requires Valid() && newArc in Beach() && newArc in arcs && arcs[newArc].site == site
      requires l in Beach() && l in arcs && l != newArc
      requires rArc.Some? ==> rArc.value in Beach() && rArc.value != newArc && rArc.value != l
      modifies this`arcs, this`firstCircleEvent, this`circleEventJunkyard, circleEvents, this`events, this`eventCount,
        this`vertexJunkyard, this`vertexAt, this`vertices, this`vertexCount,
        this`edgeJunkyard, this`edgeAt, this`edges, this`edgeCount, this`cells
      ensures SameSites(old(cells), cells)
      ensures Valid()
      ensures rArc.None? ==> AddedAfter(site, l, newArc, e1, ok, voronoiId, |cells|, old(Grown()), Grown())
      ensures rArc.Some? ==> AddedBetween(site, l, rArc.value, newArc, v, e1, e2, ok, voronoiId, |cells|, old(Grown()), Grown())
      ensures rArc.None? ==> events == old(events) && Queue() == old(Queue())
      ensures rArc.Some? && ok ==> Pending(l) && Pending(rArc.value)
      ensures l in old(arcs) && (rArc.Some? ==> rArc.value in old(arcs))
      ensures rArc.None? ==>
        cells == Paired(angle, voronoiId, vertexAt, old(cells), e1, NewEdgeState(old(arcs)[l].site, site, None, None), old(arcs)[l].site, site)
      ensures rArc.Some? ==>
        cells == if ok then Fanned(angle, voronoiId, vertexAt, old(cells), old(arcs)[l].site, site, old(arcs)[rArc.value].site, v, e1, e2)
                 else old(cells)
    {
      v, e2 := 0, 0;
      if rArc.None? {
        e1, ok := AfterLast(l, newArc, site);
      } else {
        ok, v, e1, e2 := JoinCase(l, rArc.value, newArc, site);
      }
    }

    /** The case of Voronoi.addBeachSection where the site lands after the last arc `l`: one edge, the new arc's. */
    method AfterLast(l: nat, newArc: nat, site: Site) returns (e1: nat, ok: bool)
      requires Valid() && newArc in arcs && l in arcs
      modifies this`arcs, this`edgeJunkyard, this`edgeAt, this`edges, this`edgeCount, this`cells
      ensures SameSites(old(cells), cells)
      ensures Valid() && AddedAfter(site, l, newArc, e1, ok, voronoiId, |cells|, old(Grown()), Grown())
      ensures cells == Paired(angle, voronoiId, vertexAt, old(cells), e1, NewEdgeState(old(arcs)[l].site, site, None, None), old(arcs)[l].site, site)
    {
      e1, ok := EdgeFor(newArc, arcs[l].site, site, None);
    }

    /**
     * The distinct-arcs case with the source's failures checked first: `ok` is false, and
     * nothing changes, when the three sites are collinear, `r` has no edge or a site has
     * no cell; otherwise JoinArcs.
     */
    method JoinCase(l: nat, r: nat, newArc: nat, s: Site) returns (ok: bool, v: nat, e1: nat, e2: nat)
      requires Valid() && l in Beach() && r in Beach() && newArc in Beach() && l != r && newArc != r && l != newArc
      modifies this`arcs, this`firstCircleEvent, this`circleEventJunkyard, circleEvents, this`events, this`eventCount,
        this`vertexJunkyard, this`vertexAt, this`vertices, this`vertexCount,
        this`edgeJunkyard, this`edgeAt, this`edges, this`edgeCount, this`cells
      ensures SameSites(old(cells), cells)
      ensures Valid()
      ensures AddedBetween(s, l, r, newArc, v, e1, e2, ok, voronoiId, |cells|, old(Grown()), Grown()) == true
      ensures ok ==> Pending(l) && Pending(r)
      ensures l in old(arcs) && r in old(arcs)
      ensures cells == if ok then Fanned(angle, voronoiId, vertexAt, old(cells), old(arcs)[l].site, s, old(arcs)[r].site, v, e1, e2) else old(cells)
    {
      v, e1, e2 := 0, 0, 0;
      var lSite, rSite, re := arcs[l].site, arcs[r].site, arcs[r].edge;
      var c := LandingVertex(lSite, s, rSite);
      if c.None? || re.None? || re.value !in edgeAt || CellIndex(lSite).None? || CellIndex(s).None? || CellIndex(rSite).None? {
        return false, v, e1, e2;
      }
      v, e1, e2 := JoinArcs(l, r, newArc, s, c.value);
      ok := true;
    }

    /**
     * The split case of Voronoi.addBeachSection, once the new arc is on the beachline
     * right after the arc `l` it splits: `l`'s event is detached, a copy of `l` goes
     * right after the new arc, one edge between `l`'s site and the new site becomes the
     * edge of both the new arc and the copy, and both halves of `l` may get an event.
     * `ok` is false where the source throws (a site without a cell): the state is then
     * left as it was when the edge was listed.
     */
    method SplitArc(l: nat, newArc: nat) returns (copy: nat, e: nat, ok: bool)
      requires Valid() && l in Beach() && newArc in Beach() && l != newArc
      modifies this`arcs, this`beachSectionJunkyard, this`arcCount, beachline, this`firstCircleEvent, this`circleEventJunkyard,
        circleEvents, this`events, this`eventCount, this`edgeJunkyard, this`edgeAt, this`edges, this`edgeCount, this`cells
      ensures SameSites(old(cells), cells)
      ensures Valid()
      ensures Beach() == InsertAfter(old(Beach()), Some(newArc), copy) && copy !in old(Beach())
      ensures newArc in old(arcs) && AddedSplit(old(arcs)[newArc].site, l, newArc, copy, e, ok, voronoiId, |cells|, old(Grown()), Grown())
      ensures ok ==> Pending(l) && Pending(copy)
      ensures l in old(arcs) && cells == Paired(angle, voronoiId, vertexAt, old(cells), e, NewEdgeState(old(arcs)[l].site, old(arcs)[newArc].site, None, None),
                                                old(arcs)[l].site, old(arcs)[newArc].site)
    {
      ghost var g0 := Grown();
      copy := CopyArc(l, newArc);
      ghost var g1 := Grown();
      e, ok := SplitEdge(l, newArc, copy);
      SplitAdded(g0.arcs[newArc].site, l, newArc, copy, e, ok, voronoiId, |cells|, g0, g1, Grown());
    }

    /** The edge of the split: between `l`'s site and the new arc's, shared by the new arc and the copy when both sites have cells. */
    method SplitEdge(l: nat, newArc: nat, copy: nat) returns (e: nat, ok: bool)
      requires Valid() && l in Beach() && newArc in Beach() && copy in Beach() && l != copy && l != newArc && newArc != copy
      requires l in arcs && arcs[l].circle.None? && newArc in arcs && copy in arcs && arcs[copy].circle.None?
      modifies this`arcs, this`firstCircleEvent, this`circleEventJunkyard, circleEvents, this`events, this`eventCount,
        this`edgeJunkyard, this`edgeAt, this`edges, this`edgeCount, this`cells
      ensures SameSites(old(cells), cells)
      ensures Valid() && Shared(old(Grown()), Grown(), l, newArc, copy, e, ok, voronoiId, |cells|)
      ensures ok ==> Pending(l) && Pending(copy)
      ensures cells == Paired(angle, voronoiId, vertexAt, old(cells), e, NewEdgeState(old(arcs)[l].site, old(arcs)[newArc].site, None, None),
                              old(arcs)[l].site, old(arcs)[newArc].site)
    {
      PairedCells(angle, voronoiId, vertexAt, cells, |edges|, NewEdgeState(arcs[l].site, arcs[newArc].site, None, None), arcs[l].site, arcs[newArc].site);
      e, ok := ListSplitEdge(l, newArc, copy);
      PairedCells(angle, voronoiId, vertexAt, old(cells), e, NewEdgeState(old(arcs)[l].site, old(arcs)[newArc].site, None, None),
                  old(arcs)[l].site, old(arcs)[newArc].site);
    }

    /** SplitEdge, stated on the fields one by one. */
    method ListSplitEdge(l: nat, newArc: nat, copy: nat) returns (e: nat, ok: bool)
      requires Valid() && l in Beach() && newArc in Beach() && copy in Beach() && l != copy && l != newArc && newArc != copy
      requires l in arcs && arcs[l].circle.None? && newArc in arcs && copy in arcs && arcs[copy].circle.None?
      modifies this`arcs, this`firstCircleEvent, this`circleEventJunkyard, circleEvents, this`events, this`eventCount,
        this`edgeJunkyard, this`edgeAt, this`edges, this`edgeCount, this`cells
      ensures Valid() && l in arcs && newArc in arcs && copy in arcs
      ensures edges == old(edges) + [e] && edgeAt == old(edgeAt)[e := NewEdgeState(old(arcs)[l].site, old(arcs)[newArc].site, None, None)]
      ensures ok <==> old(CellIndex(arcs[l].site)).Some? && old(CellIndex(arcs[newArc].site)).Some?
      ensures ok ==> arcs == old(arcs)[l := old(arcs)[l].(circle := arcs[l].circle)][newArc := old(arcs)[newArc].(edge := Some(e))]
                                      [copy := old(arcs)[copy].(edge := Some(e), circle := arcs[copy].circle)]
      ensures !ok ==> arcs == old(arcs)
      ensures ok ==> Pending(l) && Pending(copy)
      ensures var lSite, nSite := old(arcs)[l].site, old(arcs)[newArc].site;
        cells == Paired(angle, voronoiId, vertexAt, old(cells), e, NewEdgeState(lSite, nSite, None, None), lSite, nSite)
    {
      e, ok := NewEdge(arcs[l].site, arcs[newArc].site, None, None);
      ShareEdge(ok, l, newArc, copy, e);
    }

    /**
     * The first half of the split: `l`'s event is detached and a copy of `l` goes right after the new arc.
     * A step of `SplitArc`.
     */
    method CopyArc(l: nat, newArc: nat) returns (copy: nat)
      requires Valid() && l in Beach() && newArc in Beach() && l != newArc
      modifies this`arcs, this`beachSectionJunkyard, this`arcCount, beachline, this`firstCircleEvent, this`circleEventJunkyard, circleEvents
      ensures Valid()
      ensures Beach() == InsertAfter(old(Beach()), Some(newArc), copy) && copy !in old(Beach())
      ensures Copied(old(arcs), arcs, l, newArc, copy)
    {
      DetachCircleEvent(l);
      copy := InsertArc(arcs[l].site, Some(newArc));
    }

    /**
     * The second half of the split, once createEdge has gone through (`ok`): the new edge
     * `e` is the edge of the new arc and of the copy, and both halves of `l` may get an
     * event.  Where createEdge threw, nothing more happens.
     */
    method ShareEdge(ok: bool, l: nat, newArc: nat, copy: nat, e: nat)
      requires Valid() && l in Beach() && newArc in Beach() && copy in Beach() && l != copy && l != newArc && newArc != copy
      requires l in arcs && arcs[l].circle.None? && newArc in arcs && copy in arcs && arcs[copy].circle.None?
      modifies this`arcs, this`firstCircleEvent, this`circleEventJunkyard, circleEvents, this`events, this`eventCount
      ensures Valid() && l in arcs && newArc in arcs && copy in arcs
      ensures ok ==> arcs == old(arcs)[l := old(arcs)[l].(circle := arcs[l].circle)][newArc := old(arcs)[newArc].(edge := Some(e))]
                                      [copy := old(arcs)[copy].(edge := Some(e), circle := arcs[copy].circle)]
      ensures !ok ==> arcs == old(arcs)
      ensures ok ==> Pending(l) && Pending(copy)
      ensures cells == old(cells) && edges == old(edges) && edgeAt == old(edgeAt)
    {
      if ok {
        ghost var a0 := arcs;
        ShareOne(newArc, copy, e);
        ghost var a1 := arcs;
        AttachBoth(l, copy);
        SharedArcs(a0, a1, arcs, l, newArc, copy, e);
      }
    }

    /** `a.edge = b.edge = e`. */
    method ShareOne(a: nat, b: nat, e: nat)
      requires Valid() && a in arcs && b in arcs && a != b
      modifies this`arcs
      ensures Valid() && arcs == old(arcs)[a := old(arcs)[a].(edge := Some(e))][b := old(arcs)[b].(edge := Some(e))]
    {
      SetEdge(a, Some(e));
      SetEdge(b, Some(e));
    }

    /**
     * The loop of Voronoi.removeBeachSection over the disappearing transitions `d`, left
     * to right: the edge of each arc but the first starts at the vertex `v`, seen from the
     * site of the arc before it.  `ok` is false where the source throws, on an arc
     * without an edge.
     */
    method SetStarts(d: seq<nat>, v: nat) returns (ok: bool)
      requires 2 <= |d| && forall a :: a in d ==> a in arcs
      modifies this`edgeAt
      ensures ok <==> Edged(old(edgeAt), Transitions(arcs, d))
      ensures ok ==> edgeAt == Starts(old(edgeAt), Transitions(arcs, d), v)
    {
      ghost var tr := Transitions(arcs, d);
      var i := 1;
      while i < |d|
        invariant 1 <= i <= |d| && Edged(old(edgeAt), tr[..i]) && edgeAt == Starts(old(edgeAt), tr[..i], v)
      {
        var e := arcs[d[i]].edge;
        if e.None? || e.value !in edgeAt {
          StartsFail(old(edgeAt), tr, i, v, edgeAt);
          return false;
        }
        var i' := i + 1;
        StartsNext(old(edgeAt), tr, i, i', v, edgeAt, e.value);
        edgeAt := edgeAt[e.value := StartPoint(edgeAt[e.value], Some(arcs[d[i - 1]].site), Some(arcs[d[i]].site), v)];
        i := i';
      }
      assert tr[..i] == tr;
      ok := true;
    }

    /**
     * The end of Voronoi.removeBeachSection: a new edge between the sites of `l` and `r`,
     * now neighbours, ends at the vertex `v` and becomes `r`'s edge; then `l` and `r` may
     * get events.  `ok` is false where createEdge throws, before any event is attached.
     */
    method Reconnect(l: nat, r: nat, v: nat, ghost arcs0: map<nat, Arc>, ghost cells0: seq<CellState>, ghost edges0: seq<nat>,
                     ghost edgeAt0: map<nat, EdgeState<nat>>) returns (e: nat, ok: bool)
      requires Valid() && l in Beach() && r in Beach() && l != r
      requires arcs == arcs0 && cells == cells0 && edges == edges0 && edgeAt == edgeAt0
      requires l in arcs && r in arcs && arcs[l].circle.None? && arcs[r].circle.None?
      modifies this`arcs, this`edgeJunkyard, this`edgeAt, this`edges, this`edgeCount, this`cells,
        this`firstCircleEvent, this`circleEventJunkyard, circleEvents, this`events, this`eventCount
      ensures SameSites(cells0, cells) == true
      ensures Valid() && Beach() == old(Beach()) && |cells| == |cells0|
      ensures edgeAt == edgeAt0[e := NewEdgeState(arcs0[l].site, arcs0[r].site, None, Some(v))] && edges == edges0 + [e]
      ensures ok <==> old(CellIndex(arcs[l].site)).Some? && old(CellIndex(arcs[r].site)).Some?
      ensures ok ==> (l in arcs && r in arcs
                      && arcs == arcs0[l := arcs0[l].(circle := arcs[l].circle)][r := arcs0[r].(circle := arcs[r].circle, edge := Some(e))])
      ensures !ok ==> arcs == arcs0
      ensures ok ==> Pending(l) && Pending(r)
      ensures cells == Paired(angle, voronoiId, vertexAt, cells0, e, NewEdgeState(arcs0[l].site, arcs0[r].site, None, Some(v)),
                              arcs0[l].site, arcs0[r].site)
    {
      e, ok := EdgeFor(r, arcs[l].site, arcs[r].site, Some(v));
      ghost var c1 := cells;
      if ok {
        ghost var a1 := arcs;
        AttachBoth(l, r);
        ReconnectedArcs(arcs0, a1, arcs, l, r, e);
      }
      assert cells == c1;
    }

    /**
     * The start points of the disappearing transitions `d`, then the new edge between the
     * first and the last arc of `d`, which stay on the beachline.
     */
    method Bridge(d: seq<nat>, v: nat) returns (e: nat, ok: bool)
      requires Valid() && 2 <= |d| && (forall a :: a in d ==> a in arcs)
      requires d[0] in Beach() && d[|d| - 1] in Beach() && d[0] != d[|d| - 1]
      requires arcs[d[0]].circle.None? && arcs[d[|d| - 1]].circle.None?
      modifies this`arcs, this`edgeJunkyard, this`edgeAt, this`edges, this`edgeCount, this`cells,
        this`firstCircleEvent, this`circleEventJunkyard, circleEvents, this`events, this`eventCount
      ensures SameSites(old(cells), cells)
      ensures Valid() && Beach() == old(Beach()) && |cells| == |old(cells)|
      ensures ok <==> (Edged(old(edgeAt), Transitions(old(arcs), d))
                       && old(HasCells(arcs[d[0]].site, arcs[d[|d| - 1]].site)))
      ensures ok ==> (edges == old(edges) + [e]
                      && edgeAt == Starts(old(edgeAt), Transitions(old(arcs), d), v)
                                     [e := NewEdgeState(old(arcs)[d[0]].site, old(arcs)[d[|d| - 1]].site, None, Some(v))])
      ensures ok ==> (d[0] in arcs && d[|d| - 1] in arcs
                      && arcs == old(arcs)[d[0] := old(arcs)[d[0]].(circle := arcs[d[0]].circle)]
                                          [d[|d| - 1] := old(arcs)[d[|d| - 1]].(circle := arcs[d[|d| - 1]].circle, edge := Some(e))])
      ensures ok ==> Pending(d[0]) && Pending(d[|d| - 1])
      ensures var lSite, rSite := old(arcs)[d[0]].site, old(arcs)[d[|d| - 1]].site;
        cells == if Edged(old(edgeAt), Transitions(old(arcs), d))
                 then Paired(angle, voronoiId, vertexAt, old(cells), e, NewEdgeState(lSite, rSite, None, Some(v)), lSite, rSite)
                 else old(cells)
    {
      var l, r := d[0], d[|d| - 1];
      ok := SetStarts(d, v);
      if !ok {
        return 0, false;
      }
      e, ok := Reconnect(l, r, v, arcs, cells, edges, edgeAt);
    }

    /**
     * Voronoi.removeBeachSection, the handling of the circle event of `arc`: the vertex
     * `v` is created at the event's centre; `arc` leaves the beachline, and so do its
     * neighbours that collapse at the same vertex, from the position `j + 1` to `m - 1`
     * of the beachline (`j` and `m` being where the looks left and right stop); the
     * edges of the transitions from `j` to `m` start at `v`; a new edge `e` between the
     * sites of the arcs at `j` and `m`, now neighbours, ends at `v` and becomes the edge
     * of the arc at `m`; the arcs at `j` and `m` may get events.  `ok` is false where
     * the source throws: past the first or the last arc, on a transition without an
     * edge, or on a site without a cell.
     */
    method RemoveBeachSection(arc: nat) returns (ok: bool, v: nat, e: nat, ghost b: seq<nat>, ghost k: nat, ghost j: int, ghost m: int)
      requires Valid() && arc in Beach() && (forall a :: a in Beach() ==> a in arcs)
      requires arcs[arc].circle.Some? && arcs[arc].circle.value in events
      modifies this`arcs, this`firstCircleEvent, this`circleEventJunkyard, circleEvents, this`beachSectionJunkyard, beachline,
        this`edgeJunkyard, this`edgeAt, this`edges, this`edgeCount, this`cells, this`events, this`eventCount,
        this`vertexJunkyard, this`vertexAt, this`vertices, this`vertexCount
      ensures SameSites(old(cells), cells)
      ensures Valid() && b == old(Beach()) && k < |b| && b[k] == arc
      ensures var c := old(events)[old(arcs)[arc].circle.value];
        vertexAt == old(vertexAt)[v := Pt(c.x, c.ycenter)] && vertices == old(vertices) + [v]
        && Took(old(vertexJunkyard), old(vertexCount), v, vertexJunkyard, vertexCount)
      ensures var c := old(events)[old(arcs)[arc].circle.value];
        Removed(b, k, old(arcs), old(Snap()), c.x, c.ycenter, v, old(beachSectionJunkyard) + [arc], ok, e, j, m, Now())
      ensures ok ==> 0 <= j < m < |b| && Pending(b[j]) && Pending(b[m])
      ensures cells == Bridged(angle, voronoiId, vertexAt, old(cells), b, j, m, old(arcs), old(edgeAt), v, e)
    {
      b, k := Beach(), IndexOf(Beach(), arc);
      var circle := events[arcs[arc].circle.value];
      ok, v, e, j, m := Collapse(arc, circle.x, circle.ycenter, b, k, arcs, Snap(), beachSectionJunkyard, vertexAt, vertices, vertexJunkyard, vertexCount);
      BridgedSites(angle, voronoiId, vertexAt, old(cells), b, j, m, old(arcs), old(edgeAt), v, e);
    }

    /**
     * Voronoi.removeBeachSection from the vertex on: it is created at (`x`, `y`), then `arc`, at position `k` of `b`, leaves the beachline, and the rest follows.
     * A step of `RemoveBeachSection`.
     */
    method Collapse(arc: nat, x: real, y: real, ghost b: seq<nat>, ghost k: nat, ghost arcs0: map<nat, Arc>, ghost s0: Before,
                    ghost junk0: seq<nat>, ghost vAt0: map<nat, Pt>, ghost vs0: seq<nat>, ghost vj0: seq<nat>, ghost vc0: nat)
      returns (ok: bool, v: nat, e: nat, ghost j: int, ghost m: int)
      requires Valid() && b == Beach() && arc in b && k == IndexOf(b, arc) && (forall a :: a in b ==> a in arcs0)
      requires arcs == arcs0 && Snap() == s0 && beachSectionJunkyard == junk0
      requires vertexAt == vAt0 && vertices == vs0 && vertexJunkyard == vj0 && vertexCount == vc0
      modifies this`arcs, this`firstCircleEvent, this`circleEventJunkyard, circleEvents, this`beachSectionJunkyard, beachline,
        this`edgeJunkyard, this`edgeAt, this`edges, this`edgeCount, this`cells, this`events, this`eventCount,
        this`vertexJunkyard, this`vertexAt, this`vertices, this`vertexCount
      ensures vertexAt == vAt0[v := Pt(x, y)] && vertices == vs0 + [v]
      ensures Took(vj0, vc0, v, vertexJunkyard, vertexCount)
      ensures Valid() && Removed(b, k, arcs0, s0, x, y, v, junk0 + [arc], ok, e, j, m, Now())
      ensures ok ==> 0 <= j < m < |b| && Pending(b[j]) && Pending(b[m])
      ensures cells == Bridged(angle, voronoiId, vertexAt, old(cells), b, j, m, arcs0, s0.edgeAt, v, e)
    {
      v := CreateVertex(x, y);
      ok, e, j, m := Detached(arc, x, y, v, b, k, arcs0, s0, junk0);
    }

    /** Voronoi.removeBeachSection once the vertex `v` at (`x`, `y`) exists: `arc`, at position `k` of `b`, leaves the beachline, and the rest follows. */
    method Detached(arc: nat, x: real, y: real, v: nat, ghost b: seq<nat>, ghost k: nat, ghost arcs0: map<nat, Arc>, ghost s0: Before,
                    ghost junk0: seq<nat>) returns (ok: bool, e: nat, ghost j: int, ghost m: int)
      requires Valid() && b == Beach() && arc in b && k == IndexOf(b, arc) && (forall a :: a in b ==> a in arcs0)
      requires arcs == arcs0 && Snap() == s0 && beachSectionJunkyard == junk0
      modifies this`arcs, this`firstCircleEvent, this`circleEventJunkyard, circleEvents, this`beachSectionJunkyard, beachline,
        this`edgeJunkyard, this`edgeAt, this`edges, this`edgeCount, this`cells, this`events, this`eventCount
      ensures Valid() && Removed(b, k, arcs0, s0, x, y, v, junk0 + [arc], ok, e, j, m, Now())
      ensures ok ==> 0 <= j < m < |b| && Pending(b[j]) && Pending(b[m])
      ensures cells == Bridged(angle, voronoiId, vertexAt, old(cells), b, j, m, arcs0, s0.edgeAt, v, e)
    {
      assert LinkedAt(b, k, beachline.previous, beachline.next);
      var previous, next := beachline.previous[arc], beachline.next[arc];
      DetachBeachSection(arc);
      ok, e, j, m := Gather(arc, previous, next, x, y, v, b, k, arcs0, s0, junk0 + [arc]);
    }

    /**
     * Voronoi.removeBeachSection once the collapsing arc `arc`, at position `k` of the
     * beachline `b`, is off the beachline and in the arc pool `junk0`: the look left
     * stops at `j` and the look right at `m`, where they would have on the original
     * arcs `arcs0`; then the arcs from `j` to `m` are the disappearing transitions.
     * A step of `RemoveBeachSection`.
     */
    method Gather(arc: nat, previous: Option<nat>, next: Option<nat>, x: real, y: real, v: nat, ghost b: seq<nat>, ghost k: nat,
                  ghost arcs0: map<nat, Arc>, ghost s0: Before, ghost junk0: seq<nat>) returns (ok: bool, e: nat, ghost j: int, ghost m: int)
      requires Valid() && Distinct(b) && k < |b| && arc == b[k] && Beach() == b[..k] + b[k + 1..] && Snap() == s0
      requires previous == (if k == 0 then None else Some(b[k - 1])) && next == (if k + 1 == |b| then None else Some(b[k + 1]))
      requires (forall a :: a in b ==> a in arcs0) && arcs == arcs0[arc := arcs0[arc].(circle := None)] && beachSectionJunkyard == junk0
      modifies this`arcs, this`firstCircleEvent, this`circleEventJunkyard, circleEvents, this`beachSectionJunkyard, beachline,
        this`edgeJunkyard, this`edgeAt, this`edges, this`edgeCount, this`cells, this`events, this`eventCount
      ensures Valid() && Removed(b, k, arcs0, s0, x, y, v, junk0, ok, e, j, m, Now())
      ensures ok ==> 0 <= j < m < |b| && Pending(b[j]) && Pending(b[m])
      ensures cells == Bridged(angle, voronoiId, vertexAt, old(cells), b, j, m, arcs0, s0.edgeAt, v, e)
    {
      var d, left;
      left, d, j := LookLeftFrom(arc, previous, x, y, b, k, arcs0, s0);
      ghost var junk1 := beachSectionJunkyard;
      if !left {
        return false, 0, j, 0;
      }
      ok, e, m := Spread(next, x, y, d, v, b, j, k, arcs0, s0, beachSectionJunkyard);
      RemovedSteps(b, k, arcs0, s0, x, y, v, junk0, left, junk1, ok, e, j, m, Now());
    }

    /** The look left, with where it stops and what it clears stated on the original arcs `arcs0`. */
    method LookLeftFrom(arc: nat, previous: Option<nat>, x: real, y: real, ghost b: seq<nat>, ghost k: nat, ghost arcs0: map<nat, Arc>,
                        ghost s0: Before) returns (ok: bool, d: seq<nat>, ghost j: int)
      requires Valid() && Distinct(b) && k < |b| && arc == b[k] && Beach() == b[..k] + b[k + 1..] && Snap() == s0
      requires previous == (if k == 0 then None else Some(b[k - 1]))
      requires arc in arcs0 && arcs == arcs0[arc := arcs0[arc].(circle := None)]
      modifies this`arcs, this`firstCircleEvent, this`circleEventJunkyard, circleEvents, this`beachSectionJunkyard, beachline
      ensures Valid() && Snap() == s0 && j == LeftStop(b, arcs0, s0.events, k - 1, x, y) && (ok <==> j >= 0)
      ensures ok ==> (Beach() == b[..j + 1] + b[k + 1..] && d == b[j..k + 1] && arcs == Uncircled(arcs0, b[j..k + 1])
                      && beachSectionJunkyard == old(beachSectionJunkyard) + Reversed(b[j + 1..k]))
    {
      LeftAfterDetach(b, arcs0, arcs, events, k, x, y);
      ok, d, j := LookLeft(previous, x, y, [arc], b, k);
      if ok {
        LeftJoined(b, arcs0, j, k);
      }
    }

    /**
     * The rest of Voronoi.removeBeachSection once the look left has stopped at `j` (`d` holds
     * the arcs from `j` to the collapsing one at `k`): the look right, which stops at `m`
     * as it would have on the original arcs `arcs0`, then the start points of the
     * disappearing transitions from `j` to `m` and the new edge between the arcs at `j`
     * and `m`.
     */
    method Spread(next: Option<nat>, x: real, y: real, d: seq<nat>, v: nat, ghost b: seq<nat>, ghost j: nat, ghost k: nat,
                  ghost arcs0: map<nat, Arc>, ghost s0: Before, ghost junk0: seq<nat>) returns (ok: bool, e: nat, ghost m: int)
      requires Valid() && Distinct(b) && j < k < |b| && Beach() == b[..j + 1] + b[k + 1..] && Snap() == s0 && beachSectionJunkyard == junk0
      requires next == if k + 1 == |b| then None else Some(b[k + 1])
      requires (forall a :: a in b ==> a in arcs0) && d == b[j..k + 1] && arcs == Uncircled(arcs0, b[j..k + 1])
      modifies this`arcs, this`firstCircleEvent, this`circleEventJunkyard, circleEvents, this`beachSectionJunkyard, beachline,
        this`edgeJunkyard, this`edgeAt, this`edges, this`edgeCount, this`cells, this`events, this`eventCount
      ensures Valid() && m == RightStop(b, arcs0, s0.events, k + 1, x, y)
      ensures ok <==> (m < |b| && Edged(s0.edgeAt, Transitions(arcs0, b[j..m + 1]))
                       && Celled(s0.ids, s0.cellCount, arcs0[b[j]].site) && Celled(s0.ids, s0.cellCount, arcs0[b[m]].site))
      ensures ok ==> (Beach() == b[..j + 1] + b[m..] && beachSectionJunkyard == junk0 + b[k + 1..m]
                      && b[j] in arcs && b[m] in arcs
                      && Joined(arcs, edges, edgeAt) == Rejoined(b, j, m, arcs0, s0.edges, s0.edgeAt, v, e, arcs[b[j]].circle, arcs[b[m]].circle))
      ensures ok ==> j < m < |b| && Pending(b[j]) && Pending(b[m])
      ensures cells == Bridged(angle, voronoiId, vertexAt, old(cells), b, j, m, arcs0, s0.edgeAt, v, e)
    {
      var d';
      ok, d', m := LookRightFrom(next, x, y, d, b, j, k, arcs0);
      if !ok {
        return false, 0, m;
      }
      e, ok := Finish(d', v, b, j, m, arcs0, s0);
    }

    /** The look right, with where it stops and what it clears stated on the original arcs `arcs0`. */
    method LookRightFrom(next: Option<nat>, x: real, y: real, d: seq<nat>, ghost b: seq<nat>, ghost j: nat, ghost k: nat,
                         ghost arcs0: map<nat, Arc>) returns (ok: bool, d': seq<nat>, ghost m: int)
      requires Valid() && Distinct(b) && j < k < |b| && Beach() == b[..j + 1] + b[k + 1..]
      requires next == if k + 1 == |b| then None else Some(b[k + 1])
      requires d == b[j..k + 1] && arcs == Uncircled(arcs0, b[j..k + 1])
      modifies this`arcs, this`firstCircleEvent, this`circleEventJunkyard, circleEvents, this`beachSectionJunkyard, beachline
      ensures Valid() && m == RightStop(b, arcs0, events, k + 1, x, y) && (ok <==> m < |b|)
      ensures ok ==> (Beach() == b[..j + 1] + b[m..] && d' == b[j..m + 1] && arcs == Uncircled(arcs0, b[j..m + 1])
                      && beachSectionJunkyard == old(beachSectionJunkyard) + b[k + 1..m])
    {
      ok, d', m := LookRight(next, x, y, d, b, j + 1, k);
      RightAfterLeft(b, arcs0, events, j, k, x, y);
      if ok {
        RightJoined(b, arcs0, j, k, m);
      }
    }

    /**
     * The end of Voronoi.removeBeachSection once both looks are done: `d` holds the arcs
     * from `j` to `m` of `b`, all gone from the beachline but the first and the last, and
     * all without events.
     */
    method Finish(d: seq<nat>, v: nat, ghost b: seq<nat>, ghost j: nat, ghost m: nat, ghost arcs0: map<nat, Arc>, ghost s0: Before)
      returns (e: nat, ok: bool)
      requires Valid() && Distinct(b) && j < m < |b| && Beach() == b[..j + 1] + b[m..] && Snap() == s0
      requires (forall a :: a in b ==> a in arcs0) && d == b[j..m + 1] && arcs == Uncircled(arcs0, b[j..m + 1])
      modifies this`arcs, this`edgeJunkyard, this`edgeAt, this`edges, this`edgeCount, this`cells,
        this`firstCircleEvent, this`circleEventJunkyard, circleEvents, this`events, this`eventCount
      ensures Valid() && Beach() == old(Beach())
      ensures ok <==> (Edged(s0.edgeAt, Transitions(arcs0, b[j..m + 1]))
                       && Celled(s0.ids, s0.cellCount, arcs0[b[j]].site) && Celled(s0.ids, s0.cellCount, arcs0[b[m]].site))
      ensures ok ==> (b[j] in arcs && b[m] in arcs
                      && Joined(arcs, edges, edgeAt) == Rejoined(b, j, m, arcs0, s0.edges, s0.edgeAt, v, e, arcs[b[j]].circle, arcs[b[m]].circle))
      ensures ok ==> Pending(b[j]) && Pending(b[m])
      ensures cells == Bridged(angle, voronoiId, vertexAt, old(cells), b, j, m, arcs0, s0.edgeAt, v, e)
    {
      ghost var cells0, edgeAt0 := cells, edgeAt;
      SpreadReady(b, arcs0, j, m, d);
      e, ok := Bridge(d, v);
      BridgedByBridge(angle, voronoiId, vertexAt, cells0, cells, b, j, m, d, arcs0, edgeAt0, v, e);
    }

    /**
     * `arc.edge = this.createEdge(a, b, undefined, vb)`: a new edge from `a` to `b`
     * (ending at `vb` when given) becomes the arc's edge.  `ok` is false where
     * createEdge throws: the edge is then listed but the arc keeps its edge.
     */
    method EdgeFor(arc: nat, a: Site, b: Site, vb: Option<nat>) returns (e: nat, ok: bool)
      requires Valid() && arc in arcs
      modifies this`arcs, this`edgeJunkyard, this`edgeAt, this`edges, this`edgeCount, this`cells
      ensures SameSites(old(cells), cells)
      ensures Valid() && |cells| == |old(cells)|
      ensures edgeAt == old(edgeAt)[e := NewEdgeState(a, b, None, vb)] && edges == old(edges) + [e]
      ensures ok <==> old(CellIndex(a)).Some? && old(CellIndex(b)).Some?
      ensures arcs == if ok then old(arcs)[arc := old(arcs)[arc].(edge := Some(e))] else old(arcs)
      ensures cells == Paired(angle, voronoiId, vertexAt, old(cells), e, NewEdgeState(a, b, None, vb), a, b)
    {
      e, ok := NewEdge(a, b, None, vb);
      if ok {
        SetEdge(arc, Some(e));
      }
    }

    /**
     * The vertex `c` where the new site lands between the arcs of `lSite` and `rSite` is
     * created and made the start of the right arc's edge `re` (`rArc.edge.setStartPoint(lSite, rSite, vertex)`).
     */
    method StartVertex(re: nat, lSite: Site, rSite: Site, c: Pt) returns (v: nat)
      requires Valid() && re in edgeAt
      modifies this`vertexJunkyard, this`vertexAt, this`vertices, this`vertexCount, this`edgeAt
      ensures Valid() && Beach() == old(Beach()) && arcs == old(arcs)
      ensures Took(old(vertexJunkyard), old(vertexCount), v, vertexJunkyard, vertexCount)
      ensures vertexAt == old(vertexAt)[v := c] && vertices == old(vertices) + [v]
      ensures edgeAt == old(edgeAt)[re := StartPoint(old(edgeAt)[re], Some(lSite), Some(rSite), v)]
      ensures cells == old(cells) && edges == old(edges)
    {
      v := CreateVertex(c.x, c.y);
      edgeAt := edgeAt[re := StartPoint(edgeAt[re], Some(lSite), Some(rSite), v)];
    }

    /**
     * The between case of Voronoi.addBeachSection as the source writes it, up to where it
     * stops: the events of `l` and `r` are detached and the vertex `c` is created, and then
     * the call to `setStartpoint`, which Edge does not define, throws (`ok` is false): the
     * edge of `r` never gets its start and no edge is created.  JoinArcs is the step as
     * intended, with StartVertex setting the start.
     */
    method StartVertexAsWritten(l: nat, r: nat, c: Pt) returns (v: nat, ok: bool)
      requires Valid() && l in Beach() && r in Beach() && l != r
      modifies this`arcs, this`firstCircleEvent, this`circleEventJunkyard, circleEvents,
        this`vertexJunkyard, this`vertexAt, this`vertices, this`vertexCount
      ensures !ok && Valid() && l in old(arcs) && r in old(arcs)
      ensures arcs == old(arcs)[l := old(arcs)[l].(circle := None)][r := old(arcs)[r].(circle := None)]
      ensures Took(old(vertexJunkyard), old(vertexCount), v, vertexJunkyard, vertexCount)
      ensures vertexAt == old(vertexAt)[v := c] && vertices == old(vertices) + [v]
      ensures edgeAt == old(edgeAt) && edges == old(edges)
    {
      DetachBoth(l, r);
      v := CreateVertex(c.x, c.y);
      ok := false;
    }

    /**
     * The case of Voronoi.addBeachSection where the new arc `newArc` (for the site `s`)
     * lands between two distinct arcs `l` and `r`, on the path where the source does not
     * throw (`r` has an edge, all three sites have cells) and the three sites are not
     * collinear (`c` is the centre of their circle): the events of `l` and `r` are
     * detached, the break point between them ends at the vertex `c` (the start of `r`'s
     * edge), two edges start there (`l`'s site to `s`, the new arc's; `s` to `r`'s site,
     * `r`'s), and `l` and `r` may get events.
     */
    method JoinArcs(l: nat, r: nat, newArc: nat, s: Site, c: Pt) returns (v: nat, e1: nat, e2: nat)
      requires Valid() && l in Beach() && r in Beach() && newArc in Beach() && l != r && newArc != r && l != newArc
      requires l in arcs && r in arcs && arcs[r].edge.Some? && arcs[r].edge.value in edgeAt
      requires Celled(voronoiId, |cells|, arcs[l].site) && Celled(voronoiId, |cells|, s) && Celled(voronoiId, |cells|, arcs[r].site)
      modifies this`arcs, this`firstCircleEvent, this`circleEventJunkyard, circleEvents, this`events, this`eventCount,
        this`vertexJunkyard, this`vertexAt, this`vertices, this`vertexCount,
        this`edgeJunkyard, this`edgeAt, this`edges, this`edgeCount, this`cells
      ensures SameSites(old(cells), cells)
      ensures Valid()
      ensures JoinedAt(s, l, r, newArc, c, v, e1, e2, old(Grown()), Grown()) == true
      ensures Pending(l) && Pending(r)
      ensures cells == Fanned(angle, voronoiId, vertexAt, old(cells), old(arcs)[l].site, s, old(arcs)[r].site, v, e1, e2)
    {
      var lSite, rSite, re := arcs[l].site, arcs[r].site, arcs[r].edge.value;
      ghost var g0 := Growth(arcs, edges, edgeAt, vertices, vertexAt);
      v := StartVertex(re, lSite, rSite, c);
      ghost var g1 := Growth(arcs, edges, edgeAt, vertices, vertexAt);
      e1, e2 := Rejoin(l, r, newArc, lSite, s, rSite, v);
      JoinSteps(s, l, r, newArc, c, v, e1, e2, re, g0, g1, Growth(arcs, edges, edgeAt, vertices, vertexAt));
    }

    /** The events of `l` and `r` are detached; nothing else of the arcs changes. */
    method DetachBoth(l: nat, r: nat)
      requires Valid() && l in Beach() && r in Beach() && l != r
      modifies this`arcs, this`firstCircleEvent, this`circleEventJunkyard, circleEvents
      ensures Valid() && l in old(arcs) && r in old(arcs)
      ensures arcs == old(arcs)[l := old(arcs)[l].(circle := None)][r := old(arcs)[r].(circle := None)]
    {
      DetachCircleEvent(l);
      DetachCircleEvent(r);
    }

    /** JoinArcs once the landing vertex `v` exists: the events are detached, then the two edges start at `v`. */
    method Rejoin(l: nat, r: nat, newArc: nat, lSite: Site, s: Site, rSite: Site, v: nat) returns (e1: nat, e2: nat)
      requires Valid() && l in Beach() && r in Beach() && newArc in Beach() && l != r && newArc != r && l != newArc
      requires l in arcs && r in arcs && arcs[l].site == lSite && arcs[r].site == rSite
      requires Celled(voronoiId, |cells|, lSite) && Celled(voronoiId, |cells|, s) && Celled(voronoiId, |cells|, rSite)
      modifies this`arcs, this`firstCircleEvent, this`circleEventJunkyard, circleEvents, this`events, this`eventCount,
        this`edgeJunkyard, this`edgeAt, this`edges, this`edgeCount, this`cells
      ensures SameSites(old(cells), cells)
      ensures Valid()
      ensures edges == old(edges) + [e1] + [e2]
      ensures edgeAt == old(edgeAt)[e1 := NewEdgeState(lSite, s, None, Some(v))][e2 := NewEdgeState(s, rSite, None, Some(v))]
      ensures l in old(arcs) && r in old(arcs) && newArc in old(arcs) && l in arcs && r in arcs
      ensures arcs == LandedBetween(old(arcs), l, r, newArc, e1, e2, arcs[l].circle, arcs[r].circle)
      ensures Pending(l) && Pending(r)
      ensures cells == Fanned(angle, voronoiId, vertexAt, old(cells), lSite, s, rSite, v, e1, e2)
    {
      ghost var a0 := arcs;
      DetachBoth(l, r);
      ghost var a1 := arcs;
      e1, e2 := Fan(l, r, newArc, lSite, s, rSite, v);
      LandedAfterDetach(a0, a1, l, r, newArc, e1, e2, arcs[l].circle, arcs[r].circle);
    }

    /** The two edges that start at the landing vertex `v`, then the events of `l` and `r`. */
    method Fan(l: nat, r: nat, newArc: nat, lSite: Site, s: Site, rSite: Site, v: nat) returns (e1: nat, e2: nat)
      requires Valid() && l in Beach() && r in Beach() && newArc in arcs && l != r && newArc != r && l != newArc
      requires l in arcs && r in arcs && arcs[l].circle.None? && arcs[r].circle.None?
      requires CellIndex(lSite).Some? && CellIndex(s).Some? && CellIndex(rSite).Some?
      modifies this`arcs, this`firstCircleEvent, this`circleEventJunkyard, circleEvents, this`events, this`eventCount,
        this`edgeJunkyard, this`edgeAt, this`edges, this`edgeCount, this`cells
      ensures SameSites(old(cells), cells)
      ensures Valid()
      ensures edges == old(edges) + [e1] + [e2]
      ensures edgeAt == old(edgeAt)[e1 := NewEdgeState(lSite, s, None, Some(v))][e2 := NewEdgeState(s, rSite, None, Some(v))]
      ensures l in old(arcs) && r in old(arcs) && newArc in old(arcs) && l in arcs && r in arcs
      ensures arcs == LandedBetween(old(arcs), l, r, newArc, e1, e2, arcs[l].circle, arcs[r].circle)
      ensures Pending(l) && Pending(r)
      ensures cells == Fanned(angle, voronoiId, vertexAt, old(cells), lSite, s, rSite, v, e1, e2)
    {
      ghost var a0 := arcs;
      e1, e2 := TwoEdges(newArc, r, lSite, s, rSite, v);
      ghost var a1 := arcs;
      AttachBoth(l, r);
      FannedArcs(a0, a1, arcs, l, r, newArc, e1, e2);
    }

    /** The two edges that start at the vertex `v`: `lSite` to `s` for `newArc`, then `s` to `rSite` for `r`. */
    method TwoEdges(newArc: nat, r: nat, lSite: Site, s: Site, rSite: Site, v: nat) returns (e1: nat, e2: nat)
      requires Valid() && newArc in arcs && r in arcs && newArc != r
      requires CellIndex(lSite).Some? && CellIndex(s).Some? && CellIndex(rSite).Some?
      modifies this`arcs, this`edgeJunkyard, this`edgeAt, this`edges, this`edgeCount, this`cells
      ensures SameSites(old(cells), cells)
      ensures Valid()
      ensures edges == old(edges) + [e1] + [e2]
      ensures edgeAt == old(edgeAt)[e1 := NewEdgeState(lSite, s, None, Some(v))][e2 := NewEdgeState(s, rSite, None, Some(v))]
      ensures arcs == old(arcs)[newArc := old(arcs)[newArc].(edge := Some(e1))][r := old(arcs)[r].(edge := Some(e2))]
      ensures cells == Fanned(angle, voronoiId, vertexAt, old(cells), lSite, s, rSite, v, e1, e2)
    {
      var ok;
      e1, ok := EdgeFor(newArc, lSite, s, Some(v));
      assert CellIndex(s) == old(CellIndex(s)) && CellIndex(rSite) == old(CellIndex(rSite));
      e2, ok := EdgeFor(r, s, rSite, Some(v));
    }

    /** The arc holds the event attachCircleEvent gives it on the beachline as it is now (`Circled`). */
    ghost predicate Pending(arc: nat)
      reads this`beachline, beachline, this`arcs, this`events
    {
      Circled(sqrt, Beach(), arcs, events, arc)
    }

    /**
     * The events addBeachSection leaves behind, from the events `events0` and the queue
     * `q0` it found: with no arc on the left or after the last arc, none is queued or
     * changed; after the split of `lArc`, it and its copy `copy` hold the events the new
     * beachline calls for; between two arcs, both of them do.
     */
    ghost predicate Attached(lArc: Option<nat>, rArc: Option<nat>, copy: nat, ok: bool, events0: map<nat, CircleEvent>, q0: seq<nat>)
      reads this`beachline, beachline, this`arcs, this`events, this`circleEvents, circleEvents
    {
      if lArc.None? || rArc.None? then events == events0 && Queue() == q0
      else if lArc == rArc then ok ==> Pending(lArc.value) && Pending(copy)
      else ok ==> Pending(lArc.value) && Pending(rArc.value)
    }

    /** Both `l` and `r` may get an event, each the one the beachline calls for; nothing else of the arcs changes. */
    method AttachBoth(l: nat, r: nat)
      requires Valid() && l in Beach() && r in Beach() && l != r && l in arcs && r in arcs && arcs[l].circle.None? && arcs[r].circle.None?
      modifies this`arcs, this`firstCircleEvent, this`circleEventJunkyard, circleEvents, this`events, this`eventCount
      ensures Valid() && l in arcs && r in arcs
      ensures arcs == old(arcs)[l := old(arcs)[l].(circle := arcs[l].circle)][r := old(arcs)[r].(circle := arcs[r].circle)]
      ensures Pending(l) && Pending(r)
      ensures cells == old(cells) && edges == old(edges) && edgeAt == old(edgeAt) && Beach() == old(Beach())
    {
      Attach(l);
      ghost var b1, arcs1, events1, q1 := Beach(), arcs, events, Queue();
      Attach(r);
      CircledKept(sqrt, b1, arcs1, events1, q1, arcs, events, l, r, if arcs[r].circle.Some? then arcs[r].circle.value else 0);
    }

    /**
     * attachCircleEvent as the rest of the sweep sees it: only the arc's pending event
     * changes, to the one the beachline calls for, and the queued events stay as they were.
     */
    method Attach(arc: nat)
      requires Valid() && arc in Beach() && arc in arcs && arcs[arc].circle.None?
      modifies this`arcs, this`events, this`firstCircleEvent, this`circleEventJunkyard, this`eventCount, circleEvents
      ensures Valid() && arc in arcs && arcs == old(arcs)[arc := old(arcs)[arc].(circle := arcs[arc].circle)]
      ensures Pending(arc)
      ensures arcs[arc].circle.None? ==> events == old(events)
      ensures arcs[arc].circle.Some? ==> var id := arcs[arc].circle.value;
        id !in old(Queue()) && id in Queue() && id in events && events == old(events)[id := events[id]]
      ensures arcs[arc].circle.Some? ==> var id, q := arcs[arc].circle.value, old(Queue());
        var k := Rank(q, old(events), events[id]);
        Queue() == q[..k] + [id] + q[k..]
      ensures cells == old(cells) && edges == old(edges) && edgeAt == old(edgeAt) && Beach() == old(Beach())
    {
      ghost var arcs0 := arcs;
      assert beachline != circleEvents;
      var id := AttachCircleEvent(arc);
      CollapseBySites(sqrt, Beach(), arcs0, arcs, arc);
    }

    /**
     * The search at the start of Voronoi.addBeachSection: down the beachline tree from
     * the root, left when the site is clearly left of the arc's left break point, right
     * when clearly right of its right break point, and otherwise (or off the tree) stop
     * with the arcs the new one goes between.
     */
    method FindLanding(s: Site, ghost p: seq<Place>) returns (lArc: Option<nat>, rArc: Option<nat>, ghost i: nat)
      requires beachline.Valid() && Decisions(sqrt, Beach(), arcs, s, p)
      ensures Landed(p, Beach(), i, lArc, rArc)
    {
      ghost var b := Beach();
      lArc, rArc, i := None, None, 0;
      if beachline.root == Nil {
        return;
      }
      DecisionsConsistent(sqrt, b, arcs, s, p);
      var node := beachline.root;
      ghost var lo: nat, hi: nat := 0, |b|;
      assert b[lo..hi] == b;
      var place, prev, next;
      while true
        invariant SearchWindow(p, b, node, lo, hi)
        decreases node
      {
        place, prev, next, i := PlaceOfNode(node, lo, hi, s, p);
        Descend(p, b, node, lo, i, hi);
        if place == GoLeft && node.left != Nil {
          node, hi := node.left, i;
        } else if place == GoRight {
          node, lo := node.right, i + 1;
        } else {
          break;
        }
      }
      var between := Neighbours(node.id, prev, next, place);
      lArc, rArc := between.0, between.1;
      BetweenByLinks(b, i, node.id, prev, next, place);
    }

    /**
     * The decision of the search at the root of a subtree covering `b[lo..hi]` (the
     * `k`-th arc of the beachline), with that arc's neighbours.
     */
    method PlaceOfNode(node: Tree, ghost lo: nat, ghost hi: nat, s: Site, ghost p: seq<Place>) returns (place: Place, prev: Option<nat>, next: Option<nat>, ghost k: nat)
      requires beachline.Valid() && Decisions(sqrt, Beach(), arcs, s, p) && Consistent(p)
      requires SearchWindow(p, Beach(), node, lo, hi)
      ensures k == lo + |InOrder(node.left)|
      ensures place == p[k]
      ensures prev == (if k > 0 then Some(Beach()[k - 1]) else None)
      ensures next == (if k < |Beach()| - 1 then Some(Beach()[k + 1]) else None)
    {
      ghost var b := Beach();
      SliceSplit(b, lo, hi, InOrder(node.left), node.id, InOrder(node.right));
      k := lo + |InOrder(node.left)|;
      place, prev, next := NodeDecision(node.id, k, s, node.right != Nil);
      StepDecision(sqrt, b, arcs, s, p, k, hi, node.right != Nil);
    }

    /** The decision of the search at the arc `id`, the `k`-th of the beachline, and that arc's neighbours. */
    method NodeDecision(id: nat, ghost k: nat, s: Site, hasRight: bool) returns (place: Place, prev: Option<nat>, next: Option<nat>)
      requires beachline.Valid() && Payloads(Beach(), arcs) && k < |Beach()| && Beach()[k] == id
      ensures place == Land(Dxl(sqrt, Beach(), arcs, k, s), Dxr(sqrt, Beach(), arcs, k, s), hasRight)
      ensures prev == (if k > 0 then Some(Beach()[k - 1]) else None)
      ensures next == (if k < |Beach()| - 1 then Some(Beach()[k + 1]) else None)
    {
      ghost var b := Beach();
      assert LinkedAt(b, k, beachline.previous, beachline.next);
      prev, next := beachline.previous[id], beachline.next[id];
      var site := arcs[id].site;
      var lSite := if prev.Some? then Some(arcs[prev.value].site) else None;
      var rSite := if next.Some? then Some(arcs[next.value].site) else None;
      var dxl := ExtSub(LeftBreakPoint(sqrt, site, lSite, s.y), Fin(s.x));
      var dxr := ExtSub(Fin(s.x), RightBreakPoint(sqrt, site, rSite, s.y));
      place := Land(dxl, dxr, hasRight);
    }

    // -------------------------------------------------------------------------
    // The wrap-up: clipEdges

    /** The vertex pool hands out no vertex of the diagram, and every vertex of the diagram has a position. */
    predicate VertexPool()
      reads this`vertexJunkyard, this`vertexCount, this`vertices, this`vertexAt
    {
      Fresh(vertexJunkyard, vertexCount, vertices) && forall v :: v in vertices ==> v in vertexAt
    }

    /**
     * createVertex during the wrap-up: the new vertex is none of the diagram's, so no vertex of the diagram moves.
     * Used by `ConnectEdge` and `ClipEdge`.
     */
    method NewVertex(p: Pt) returns (v: nat)
      requires VertexPool()
      modifies this`vertexJunkyard, this`vertexAt, this`vertices, this`vertexCount
      ensures VertexPool() && v !in old(vertices)
      ensures vertices == old(vertices) + [v] && vertexAt == old(vertexAt)[v := p]
      ensures Keeps(old(vertexAt), old(vertices), vertexAt, vertices)
    {
      v := CreateVertex(p.x, p.y);
      TookFresh(old(vertexJunkyard), old(vertexCount), old(vertices), v, vertexJunkyard, vertexCount);
    }

    /**
     * Voronoi.connectEdge on the edge `e`: true, and nothing changes, when its end is
     * already set.  Otherwise the cells of both its sites are marked for closing, and the
     * edge is given up (false) or gets the ends `Connected` gives, each new one a new
     * vertex.
     */
    method ConnectEdge(e: nat, box: Bounds) returns (ok: bool)
      requires VertexPool() && e in edgeAt && Ready(edgeAt[e], vertexAt) && EndsIn(edgeAt[e], vertices)
      requires edgeAt[e].vb.None? ==> HasCells(edgeAt[e].left.value, edgeAt[e].right.value)
      modifies this`vertexJunkyard, this`vertexAt, this`vertices, this`vertexCount, this`edgeAt, this`cells
      ensures VertexPool() && Keeps(old(vertexAt), old(vertices), vertexAt, vertices)
      ensures var es := old(edgeAt[e]);
        var ends := Connected(es.left.value, es.right.value, old(Located(vertexAt, es.va)), old(Located(vertexAt, es.vb)), box);
        (ok <==> ends.Some?) && e in edgeAt && edgeAt == old(edgeAt)[e := edgeAt[e]]
        && (if ok then Settled(edgeAt[e], es, ends, vertexAt, vertices) else edgeAt[e] == es)
        && (if es.vb.Some? then cells == old(cells) && vertices == old(vertices) && vertexAt == old(vertexAt)
            else cells == Flag(Flag(old(cells), old(CellIndex(es.left.value)).value), old(CellIndex(es.right.value)).value))
    {
      var es := edgeAt[e];
      if es.vb.Some? {
        return true;
      }
      var l, r := es.left.value, es.right.value;
      cells := Flag(cells, CellIndex(l).value);
      cells := Flag(cells, CellIndex(r).value);
      var k := Connect(l, r, Located(vertexAt, es.va), box);
      if k.Outside? {
        return false;
      }
      var va := es.va;
      if k.start.Some? {
        var v := NewVertex(k.start.value);
        va := Some(v);
      }
      var vb := NewVertex(k.end);
      edgeAt := edgeAt[e := es.(va := va, vb := Some(vb))];
      ok := true;
    }

    /**
     * Voronoi.clipEdge on the edge `e` with both ends: false, and nothing changes, when
     * the segment misses the box; otherwise the start moves to a new vertex when the kept
     * window starts past 0, the end when it stops short of 1, and the cells of both
     * sites are marked for closing exactly when an end moved.
     */
    method ClipEdge(e: nat, box: Bounds) returns (ok: bool)
      requires VertexPool() && e in edgeAt && Ready(edgeAt[e], vertexAt) && EndsIn(edgeAt[e], vertices)
      requires edgeAt[e].vb.Some?
      requires Moves(vertexAt[edgeAt[e].va.value], vertexAt[edgeAt[e].vb.value], box) ==>
        HasCells(edgeAt[e].left.value, edgeAt[e].right.value)
      modifies this`vertexJunkyard, this`vertexAt, this`vertices, this`vertexCount, this`edgeAt, this`cells
      ensures VertexPool() && Keeps(old(vertexAt), old(vertices), vertexAt, vertices)
      ensures var es := old(edgeAt[e]);
        var a, b := old(vertexAt[es.va.value]), old(vertexAt[es.vb.value]);
        var c := Clipped(a, b, box);
        (ok <==> c.Some?) && e in edgeAt && edgeAt == old(edgeAt)[e := edgeAt[e]]
        && (if ok then Settled(edgeAt[e], es, c, vertexAt, vertices) else edgeAt[e] == es)
        && cells == (if Moves(a, b, box)
                     then Flag(Flag(old(cells), old(CellIndex(es.left.value)).value), old(CellIndex(es.right.value)).value)
                     else old(cells))
    {
      var es := edgeAt[e];
      var a, b := vertexAt[es.va.value], vertexAt[es.vb.value];
      var w := LiangBarsky(a, b, box);
      if w.Rejected? {
        return false;
      }
      if w.t0 > 0.0 {
        var v := NewVertex(PointAt(a, b, w.t0));
        edgeAt := edgeAt[e := edgeAt[e].(va := Some(v))];
      }
      if w.t1 < 1.0 {
        var v := NewVertex(PointAt(a, b, w.t1));
        edgeAt := edgeAt[e := edgeAt[e].(vb := Some(v))];
      }
      if w.t0 > 0.0 || w.t1 < 1.0 {
        cells := Flag(cells, CellIndex(es.left.value).value);
        cells := Flag(cells, CellIndex(es.right.value).value);
      }
      ok := true;
    }

    /**
     * One edge of Voronoi.clipEdges: connectEdge, then clipEdge, then the point-like
     * test; an edge that fails any of them loses both ends.  `keep` is whether it stays.
     * A step of `ClipEdges`.
     */
    method FinishEdge(e: nat, box: Bounds) returns (keep: bool)
      requires VertexPool() && e in edgeAt && Ready(edgeAt[e], vertexAt) && EndsIn(edgeAt[e], vertices)
      requires HasCells(edgeAt[e].left.value, edgeAt[e].right.value)
      modifies this`vertexJunkyard, this`vertexAt, this`vertices, this`vertexCount, this`edgeAt, this`cells
      ensures VertexPool() && Keeps(old(vertexAt), old(vertices), vertexAt, vertices) && Marked(old(cells), cells)
      ensures var f := FateOf(old(edgeAt[e]), old(vertexAt), box);
        (keep <==> f.Some?) && e in edgeAt && edgeAt == old(edgeAt)[e := edgeAt[e]]
        && Settled(edgeAt[e], old(edgeAt[e]), f, vertexAt, vertices)
    {
      ghost var es := edgeAt[e];
      ghost var vAt0, vs0, cells0 := vertexAt, vertices, cells;
      keep := ConnectEdge(e, box);
      ghost var ends := Connected(es.left.value, es.right.value, Located(vAt0, es.va), Located(vAt0, es.vb), box);
      if keep {
        ghost var vAt1, vs1, cells1 := vertexAt, vertices, cells;
        keep := Trim(e, box, es, ends.value);
        KeepsTrans(vAt0, vs0, vAt1, vs1, vertexAt, vertices);
        MarkedTrans(cells0, cells1, cells);
      } else {
        edgeAt := edgeAt[e := edgeAt[e].(va := None, vb := None)];
      }
    }

    /**
     * The rest of one edge of Voronoi.clipEdges, once connectEdge has given the edge the
     * ends `ends`: clipEdge, then the point-like test, and both ends cleared on a failure.
     * A step of `ClipEdges`.
     */
    method Trim(e: nat, box: Bounds, ghost es0: EdgeState<nat>, ghost ends: (Pt, Pt)) returns (keep: bool)
      requires VertexPool() && e in edgeAt && Ready(edgeAt[e], vertexAt) && EndsIn(edgeAt[e], vertices)
      requires HasCells(edgeAt[e].left.value, edgeAt[e].right.value)
      requires Settled(edgeAt[e], es0, Some(ends), vertexAt, vertices)
      modifies this`vertexJunkyard, this`vertexAt, this`vertices, this`vertexCount, this`edgeAt, this`cells
      ensures VertexPool() && Keeps(old(vertexAt), old(vertices), vertexAt, vertices) && Marked(old(cells), cells)
      ensures var f := Trimmed(ends.0, ends.1, box);
        (keep <==> f.Some?) && e in edgeAt && edgeAt == old(edgeAt)[e := edgeAt[e]]
        && Settled(edgeAt[e], es0, f, vertexAt, vertices)
    {
      keep := ClipEdge(e, box);
      if keep {
        keep := !PointLike(vertexAt[edgeAt[e].va.value], vertexAt[edgeAt[e].vb.value]);
      }
      if !keep {
        edgeAt := edgeAt[e := edgeAt[e].(va := None, vb := None)];
      }
    }

    /** What clipEdges needs of the listed edges: each is known, ready, ends at listed vertices, and both its sites have cells. */
    predicate EdgesReady(es: seq<nat>)
      reads this`edgeAt, this`vertexAt, this`vertices, this`voronoiId, this`cells
    {
      Listed(es, edgeAt, vertexAt, vertices)
      && forall e :: e in es ==> (e in edgeAt && edgeAt[e].left.Some? && edgeAt[e].right.Some?
                                  && HasCells(edgeAt[e].left.value, edgeAt[e].right.value))
    }

    /**
     * Voronoi.clipEdges: walking the edges from the last, each edge is connected, clipped
     * and checked for length; the edges given up lose their ends and are spliced out of the list, the
     * others keep their order.
     */
    method ClipEdges(box: Bounds)
      requires VertexPool() && EdgesReady(edges)
      modifies this`vertexJunkyard, this`vertexAt, this`vertices, this`vertexCount, this`edgeAt, this`edges, this`cells
      ensures VertexPool() && Keeps(old(vertexAt), old(vertices), vertexAt, vertices) && Marked(old(cells), cells)
      ensures edges == Survivors(old(edges), old(edgeAt), old(vertexAt), box)
      ensures edgeAt.Keys == old(edgeAt).Keys
      ensures forall e :: e in old(edges) ==> Settled(edgeAt[e], old(edgeAt[e]), FateOf(old(edgeAt[e]), old(vertexAt), box), vertexAt, vertices)
      ensures forall e :: e in old(edgeAt) && e !in old(edges) ==> edgeAt[e] == old(edgeAt[e])
    {
      ghost var E0, edgeAt0, vAt0, vs0, cells0 := edges, edgeAt, vertexAt, vertices, cells;
      var i: nat := |edges|;
      ClipsStart(E0, edgeAt0, vAt0, vs0, cells0, box);
      while i > 0
        invariant ClipInv(E0, edgeAt0, vAt0, vs0, cells0, box, i, old(voronoiId))
      {
        ClipOne(E0, edgeAt0, vAt0, vs0, cells0, box, i, old(voronoiId));
        i := i - 1;
      }
      ClipsEnd(E0, edgeAt0, vAt0, vs0, cells0, box, edges, edgeAt, vertexAt, vertices, cells);
    }

    /**
     * What clipEdges keeps while it walks the edges: `E0[i..]` are finished (ClipsDone), the
     * vertex pool is sound, and every edge of `E0` still has its two cells.
     */
    predicate ClipInv(E0: seq<nat>, edgeAt0: map<nat, EdgeState<nat>>, vAt0: map<nat, Pt>, vs0: seq<nat>,
                      cells0: seq<CellState>, box: Bounds, i: nat, vid0: map<nat, nat>)
      reads this`vertexJunkyard, this`vertexAt, this`vertices, this`vertexCount, this`edgeAt, this`edges, this`cells, this`voronoiId
    {
      i <= |E0| && Listed(E0, edgeAt0, vAt0, vs0) && VertexPool() && voronoiId == vid0
      && (forall e :: e in E0 ==> edgeAt0[e].left.Some? && edgeAt0[e].right.Some? && HasCells(edgeAt0[e].left.value, edgeAt0[e].right.value))
      && ClipsDone(E0, edgeAt0, vAt0, vs0, cells0, box, i, edges, edgeAt, vertexAt, vertices, cells)
    }

    /** One step of clipEdges: the edge `E0[i - 1]`, the last one not yet finished. */
    method ClipOne(ghost E0: seq<nat>, ghost edgeAt0: map<nat, EdgeState<nat>>, ghost vAt0: map<nat, Pt>, ghost vs0: seq<nat>,
                   ghost cells0: seq<CellState>, box: Bounds, i: nat, ghost vid0: map<nat, nat>)
      requires 0 < i && ClipInv(E0, edgeAt0, vAt0, vs0, cells0, box, i, vid0)
      modifies this`vertexJunkyard, this`vertexAt, this`vertices, this`vertexCount, this`edgeAt, this`edges, this`cells
      ensures ClipInv(E0, edgeAt0, vAt0, vs0, cells0, box, i - 1, vid0)
    {
      ClipNext(E0, edgeAt0, vAt0, vs0, cells0, box, i, edges, edgeAt, vertexAt, vertices, cells);
      ghost var edges1, edgeAt1, vAt1, vs1, cells1 := edges, edgeAt, vertexAt, vertices, cells;
      var e := edges[i - 1];
      var keep := FinishEdge(e, box);
      if !keep {
        edges := edges[..i - 1] + edges[i..];
      }
      ClipStep(E0, edgeAt0, vAt0, vs0, cells0, box, i, edges1, edgeAt1, vAt1, vs1, cells1, keep, edges, edgeAt, vertexAt, vertices, cells);
    }

    // -------------------------------------------------------------------------
    // The wrap-up: closeCells

    /** The state the wrap-up grows. */
    ghost function Here(): Frame
      reads this`cells, this`vertexAt, this`vertices, this`edgeAt, this`edgeJunkyard, this`edgeCount, this`edges
    {
      Frame(cells, vertexAt, vertices, edgeAt, edgeJunkyard, edgeCount, edges)
    }

    /** The edge pool hands out no edge a cell refers to. */
    predicate EdgePool()
      reads this`edgeJunkyard, this`edgeCount, this`cells, this`edgeAt, this`vertices
    {
      EdgesFresh(edgeJunkyard, edgeCount, cells, edgeAt, vertices)
    }

    /**
     * One case of the fall-through walk in closeCells: a vertex created at `p`, a border
     * edge from `va` to it on the side of the site of cell `i`, and its half-edge spliced
     * into the cell after position `iLeft`.
     */
    method BorderSegment(i: nat, iLeft: nat, va: nat, p: Pt) returns (vb: nat, h: HalfEdge)
      requires VertexPool() && EdgePool() && i < |cells| && iLeft < |cells[i].halfEdges| && va in vertices
      modifies this`vertexJunkyard, this`vertexAt, this`vertices, this`vertexCount,
        this`edgeJunkyard, this`edgeAt, this`edges, this`edgeCount, this`cells
      ensures VertexPool() && EdgePool() && Grows(old(Here()), Here())
      ensures vb in vertices && BorderPiece(h, va, vb, p, old(cells[i].site), edgeAt, vertexAt, angle)
      ensures edges == old(edges) + [h.edge] && |cells| == |old(cells)|
      ensures cells == old(cells)[i := old(cells[i]).(halfEdges := old(cells[i].halfEdges)[..iLeft + 1] + [h] + old(cells[i].halfEdges)[iLeft + 1..])]
    {
      var site := cells[i].site;
      ghost var junk0, count0, cells0, edgeAt0, vs0 := edgeJunkyard, edgeCount, cells, edgeAt, vertices;
      vb := NewVertex(p);
      var e := CreateBorderEdge(site, va, vb);
      h := HalfEdgeOf(e, edgeAt[e], site, None);
      var hs := cells[i].halfEdges;
      SpliceIn(hs, iLeft + 1, h);
      cells := cells[i := cells[i].(halfEdges := hs[..iLeft + 1] + [h] + hs[iLeft + 1..])];
      BorderEdgeFresh(junk0, count0, cells0, edgeAt0, vs0, e, edgeJunkyard, edgeCount, cells, edgeAt, vertices);
    }

    /**
     * The `switch` of closeCells for the gap after position `iLeft` of cell `i`, from the
     * vertex `va` to the point `vz`: from the side where `va` enters, each case lays one
     * border segment and falls through to the next until one reaches `vz`.  `ok` is
     * false where the source throws: `va` on no side, or the last case passed.  `run`
     * and `vids` are the half-edges laid and the vertices they pass through.
     * A step of `CloseCell`.
     */
    method FillGap(i: nat, iLeft: nat, va: nat, vz: Pt, box: Bounds)
      returns (ok: bool, iLeft': nat, ghost run: seq<HalfEdge>, ghost vids: seq<nat>)
      requires VertexPool() && EdgePool() && i < |cells| && iLeft < |cells[i].halfEdges| && va in vertices
      modifies this`vertexJunkyard, this`vertexAt, this`vertices, this`vertexCount,
        this`edgeJunkyard, this`edgeAt, this`edges, this`edgeCount, this`cells
      ensures (VertexPool() && EdgePool() && Grows(old(Here()), Here())) == true && |cells| == |old(cells)|
      ensures ok <==> Gap(old(vertexAt[va]), vz, box).Some?
      ensures ok ==> (iLeft' == iLeft + |run| && |vids| == |run| + 1 && vids[0] == va
        && BorderRun(run, vids, Gap(old(vertexAt[va]), vz, box).value, old(cells[i].site), edgeAt, vertexAt, angle)
        && cells == old(cells)[i := old(cells[i]).(halfEdges := old(cells[i].halfEdges)[..iLeft + 1] + run + old(cells[i].halfEdges)[iLeft + 1..])])
    {
      ghost var F0 := Here();
      var entry := EntrySide(vertexAt[va], box);
      if entry.None? {
        return false, iLeft, [], [va];
      }
      ok, iLeft', run, vids := WalkBorder(F0, i, iLeft, va, vz, box, entry.value);
    }

    /**
     * The fall-through of FillGap from the case `k` where the walk enters, starting at
     * the vertex `va`: the cases lay their segments until one reaches `vz`.
     * A step of `CloseCell`.
     */
    method WalkBorder(ghost F0: Frame, i: nat, iLeft: nat, va: nat, vz: Pt, box: Bounds, k: nat)
      returns (ok: bool, iLeft': nat, ghost run: seq<HalfEdge>, ghost vids: seq<nat>)
      requires F0 == Here() && VertexPool() && EdgePool() && i < |cells| && iLeft < |cells[i].halfEdges| && va in vertices && k <= 6
      modifies this`vertexJunkyard, this`vertexAt, this`vertices, this`vertexCount,
        this`edgeJunkyard, this`edgeAt, this`edges, this`edgeCount, this`cells
      ensures Laid(F0, i, iLeft, va, vz, box, k, ok, iLeft', run, vids) == true
    {
      ghost var H := cells[i].halfEdges;
      var site := cells[i].site;
      run, vids := [], [va];
      iLeft' := iLeft;
      var j, a := k, va;
      ghost var ps: seq<Pt> := [];
      assert H[..iLeft + 1] + run + H[iLeft + 1..] == H;
      assert cells == F0.cells[i := F0.cells[i].(halfEdges := H[..iLeft + 1] + run + H[iLeft + 1..])];
      if Walk(vz, box, j).Some? {
        assert ps + Walk(vz, box, j).value == Walk(vz, box, j).value;
      }
      while true
        invariant Laying(F0, i, iLeft, site, vz, box, k, j, a, iLeft', run, vids, ps) == true
        invariant vids[0] == va
        decreases 6 - j
      {
        var last := Reaches(Border.SideOf(j), vz, box);
        var p := SegmentEnd(Border.SideOf(j), vz, box);
        var vb, h := LaySegment(F0, i, iLeft, site, vz, box, k, j, a, iLeft', run, vids, ps, p);
        WalkLast(vz, box, k, j, ps);
        iLeft' := iLeft' + 1;
        run, vids, ps := run + [h], vids + [vb], ps + [p];
        if last {
          return true, iLeft', run, vids;
        }
        if j == 6 {
          return false, iLeft', run, vids;
        }
        WalkStep(vz, box, k, j, ps[..|ps| - 1]);
        a, j := vb, j + 1;
      }
    }

    /**
     * Where WalkBorder ends, from the frame `f0`: the pools sound and the state only grown;
     * `ok` exactly when the walk from case `k` reaches `vz`, and then the half-edges `run`
     * laid along it through the vertices `vids` from `va`, spliced in after `iLeft`.
     */
    ghost predicate Laid(f0: Frame, i: nat, iLeft: nat, va: nat, vz: Pt, box: Bounds, k: nat, ok: bool, iLeft': nat,
                         run: seq<HalfEdge>, vids: seq<nat>)
      requires k <= 6
      reads this`vertexJunkyard, this`vertexCount, this`cells, this`vertexAt, this`vertices, this`edgeAt, this`edgeJunkyard,
        this`edgeCount, this`edges
    {
      VertexPool() && EdgePool() && Grows(f0, Here()) && |cells| == |f0.cells|
      && (ok <==> Walk(vz, box, k).Some?)
      && (ok ==>
            (i < |f0.cells| && iLeft < |f0.cells[i].halfEdges| && iLeft' == iLeft + |run| && |vids| == |run| + 1 && vids[0] == va
             && BorderRun(run, vids, Walk(vz, box, k).value, f0.cells[i].site, edgeAt, vertexAt, angle)
             && cells == f0.cells[i := f0.cells[i].(halfEdges := f0.cells[i].halfEdges[..iLeft + 1] + run + f0.cells[i].halfEdges[iLeft + 1..])]))
    }

    /**
     * The state of the walk of `FillGap` from the frame `f0`, after the cases `k` to
     * `j - 1`: the half-edges `run` through the vertices `vids` (ending at `a`) laid at
     * the points `ps`, which the walk from `k` continues with the walk from `j`.
     */
    ghost predicate Laying(f0: Frame, i: nat, iLeft: nat, site: Site, vz: Pt, box: Bounds, k: nat, j: nat, a: nat, iLeft': nat,
                           run: seq<HalfEdge>, vids: seq<nat>, ps: seq<Pt>)
      reads this`vertexJunkyard, this`vertexCount, this`cells, this`vertexAt, this`vertices, this`edgeAt, this`edgeJunkyard,
        this`edgeCount, this`edges
    {
      k <= j <= 6 && VertexPool() && EdgePool() && Grows(f0, Here())
      && i < |f0.cells| && iLeft < |f0.cells[i].halfEdges| && f0.cells[i].site == site
      && a in vertices && |vids| == |run| + 1 && vids[|run|] == a && iLeft' == iLeft + |run|
      && Walk(vz, box, k) == Prefixed(Walk(vz, box, j), ps)
      && BorderRun(run, vids, ps, site, edgeAt, vertexAt, angle)
      && cells == f0.cells[i := f0.cells[i].(halfEdges := f0.cells[i].halfEdges[..iLeft + 1] + run + f0.cells[i].halfEdges[iLeft + 1..])]
    }

    /**
     * One case of the walk of `FillGap`: the segment from `a` to a new vertex at `p`.
     * A step of `CloseCell`.
     */
    method LaySegment(ghost f0: Frame, i: nat, ghost iLeft: nat, ghost site: Site, ghost vz: Pt, ghost box: Bounds, ghost k: nat,
                      ghost j: nat, a: nat, iLeft': nat, ghost run: seq<HalfEdge>, ghost vids: seq<nat>, ghost ps: seq<Pt>, p: Pt)
      returns (vb: nat, h: HalfEdge)
      requires Laying(f0, i, iLeft, site, vz, box, k, j, a, iLeft', run, vids, ps)
      modifies this`vertexJunkyard, this`vertexAt, this`vertices, this`vertexCount,
        this`edgeJunkyard, this`edgeAt, this`edges, this`edgeCount, this`cells
      ensures VertexPool() && EdgePool() && Grows(f0, Here()) && vb in vertices
      ensures BorderRun(run + [h], vids + [vb], ps + [p], site, edgeAt, vertexAt, angle)
      ensures cells == f0.cells[i := f0.cells[i].(halfEdges := f0.cells[i].halfEdges[..iLeft + 1] + (run + [h]) + f0.cells[i].halfEdges[iLeft + 1..])]
    {
      ghost var f1 := Here();
      SpliceAfter(f0.cells[i].halfEdges, iLeft, run, HalfEdge(0, site, None, 0.0));
      vb, h := BorderSegment(i, iLeft', a, p);
      GrowsTrans(f0, f1, Here());
      BorderRunKept(run, vids, ps, site, angle, f1.edgeAt, f1.vAt, f1.vs, f1.junk, f1.count, edgeAt, vertexAt, vertices);
      SpliceAfter(f0.cells[i].halfEdges, iLeft, run, h);
    }

    /**
     * Voronoi.closeCells: every cell, from the last to the first, prepared and, when
     * marked, closed along the border.  `ok` is false where the source throws, which is
     * exactly when some cell cannot be closed; otherwise each cell is closed as
     * `CellClosed` says, with the runs in `runss`.
     */
    method CloseCells(box: Bounds) returns (ok: bool, ghost runss: seq<seq<seq<HalfEdge>>>, ghost vidsss: seq<seq<seq<nat>>>)
      requires VertexPool() && EdgePool() && OneOfEnds(startOf) && OneOfEnds(endOf)
      modifies this`vertexJunkyard, this`vertexAt, this`vertices, this`vertexCount,
        this`edgeJunkyard, this`edgeAt, this`edges, this`edgeCount, this`cells
      ensures VertexPool() && EdgePool() && Grows(old(Here()), Here()) && |cells| == |old(cells)|
      ensures ok <==> forall j :: 0 <= j < |old(cells)| ==>
        CellOk(Ends(startOf, endOf, old(edgeAt), old(vertexAt)), old(cells[j]), Prepared(old(edgeAt), old(cells[j].halfEdges)), box)
      ensures ok ==> |runss| == |vidsss| == |cells| && forall j :: 0 <= j < |cells| ==>
        CellClosed(Ends(startOf, endOf, edgeAt, vertexAt), old(cells[j]), cells[j], Prepared(old(edgeAt), old(cells[j].halfEdges)),
                   runss[j], vidsss[j], box, angle)
    {
      ghost var f0 := Here();
      var iCell := |cells|;
      runss, vidsss := seq(iCell, _ => []), seq(iCell, _ => []);
      while iCell > 0
        invariant Sealing(f0, box, iCell, runss, vidsss) == true
        decreases iCell
      {
        iCell := iCell - 1;
        ghost var f1 := Here();
        ghost var runs, vidss;
        ok, runs, vidss := CloseCell(f0, iCell, box);
        if !ok {
          return;
        }
        SealStep(startOf, endOf, angle, f0, f1, Here(), box, iCell, runss, vidsss, runs, vidss);
        runss, vidsss := runss[iCell := runs], vidsss[iCell := vidss];
      }
      ok := true;
    }

    /** The loop state of closeCells from the frame `f0` (see `Seals`), with both pools fresh. */
    ghost predicate Sealing(f0: Frame, box: Bounds, iCell: nat, runss: seq<seq<seq<HalfEdge>>>, vidsss: seq<seq<seq<nat>>>)
      reads this`vertexJunkyard, this`vertexCount, this`cells, this`vertexAt, this`vertices, this`edgeAt, this`edgeJunkyard,
        this`edgeCount, this`edges
    {
      VertexPool() && EdgePool() && EdgesFresh(f0.junk, f0.count, f0.cells, f0.edgeAt, f0.vs) && (forall v :: v in f0.vs ==> v in f0.vAt)
      && Seals(startOf, endOf, angle, f0, Here(), box, iCell, runss, vidsss)
    }

    /**
     * One turn of closeCells, on cell `i`: its half-edges prepared (pruned and sorted),
     * then, when some are left and it is marked, closed along the border and unmarked.
     * `ok` is false where the source throws.  Stated against the frame `f0` the wrap-up
     * started from, which the state has only grown since.
     */
    method CloseCell(ghost f0: Frame, i: nat, box: Bounds) returns (ok: bool, ghost runs: seq<seq<HalfEdge>>, ghost vidss: seq<seq<nat>>)
      requires VertexPool() && EdgePool() && OneOfEnds(startOf) && OneOfEnds(endOf) && Grows(f0, Here())
      requires EdgesFresh(f0.junk, f0.count, f0.cells, f0.edgeAt, f0.vs) && forall v :: v in f0.vs ==> v in f0.vAt
      requires i < |f0.cells| == |cells| && cells[i] == f0.cells[i]
      modifies this`vertexJunkyard, this`vertexAt, this`vertices, this`vertexCount,
        this`edgeJunkyard, this`edgeAt, this`edges, this`edgeCount, this`cells
      ensures VertexPool() && EdgePool() && Grows(f0, Here()) && Grows(old(Here()), Here())
      ensures |cells| == |old(cells)| && (ok ==> forall j :: 0 <= j < |cells| && j != i ==> cells[j] == old(cells[j]))
      ensures ok <==> CellOk(Ends(startOf, endOf, f0.edgeAt, f0.vAt), f0.cells[i], Prepared(f0.edgeAt, f0.cells[i].halfEdges), box)
      ensures ok ==> CellClosed(Ends(startOf, endOf, edgeAt, vertexAt), f0.cells[i], cells[i],
                                Prepared(f0.edgeAt, f0.cells[i].halfEdges), runs, vidss, box, angle) == true
    {
      ghost var start := Here();
      var hs, n := PrepareCell(f0, i);
      runs, vidss := [], [];
      if n == 0 || !cells[i].closeMe {
        return true, runs, vidss;
      }
      ghost var prepared := Here();
      ok, runs, vidss := CloseMarked(f0, i, hs, box);
      GrowsTrans(start, prepared, Here());
      MarkedClosed(Ends(startOf, endOf, f0.edgeAt, f0.vAt), Ends(startOf, endOf, edgeAt, vertexAt), f0.cells[i], cells[i],
                   hs, runs, vidss, box, angle, ok);
    }

    /**
     * The closing of a marked cell `i` with the prepared half-edges `hs`, and its unmarking.
     * A step of `CloseCells`.
     */
    method CloseMarked(ghost f0: Frame, i: nat, ghost hs: seq<HalfEdge>, box: Bounds)
      returns (ok: bool, ghost runs: seq<seq<HalfEdge>>, ghost vidss: seq<seq<nat>>)
      requires VertexPool() && EdgePool() && OneOfEnds(startOf) && OneOfEnds(endOf) && Grows(f0, Here())
      requires EdgesFresh(f0.junk, f0.count, f0.cells, f0.edgeAt, f0.vs) && forall v :: v in f0.vs ==> v in f0.vAt
      requires i < |f0.cells| == |cells| && hs == cells[i].halfEdges && cells[i].closeMe
      requires forall h :: h in hs ==> h in f0.cells[i].halfEdges
      modifies this`vertexJunkyard, this`vertexAt, this`vertices, this`vertexCount,
        this`edgeJunkyard, this`edgeAt, this`edges, this`edgeCount, this`cells
      ensures VertexPool() && EdgePool() && Grows(f0, Here()) && Grows(old(Here()), Here()) && |cells| == |old(cells)|
      ensures ok <==> Closable(Ends(startOf, endOf, f0.edgeAt, f0.vAt), hs, box)
      ensures ok ==> ClosedAs(Ends(startOf, endOf, edgeAt, vertexAt), hs, runs, vidss, old(cells[i].site), box, angle)
      ensures ok ==> cells == old(cells)[i := CellState(old(cells[i].site), Weave(hs, runs), false)]
    {
      ghost var f1 := Here();
      assert forall h :: h in hs ==> Referable(h.edge, f0.junk, f0.count, f0.edgeAt, f0.vs);
      ClosableKept(startOf, endOf, f0, f1, hs, box);
      ok, runs, vidss := CloseGaps(i, box);
      GrowsTrans(f0, f1, Here());
      if ok {
        NarrowedFresh(edgeJunkyard, edgeCount, cells, edgeAt, vertices, i, cells[i].(closeMe := false));
        cells := cells[i := cells[i].(closeMe := false)];
      }
    }

    /**
     * Cell.prepareHalfedges on cell `i`: its half-edges pruned and sorted, as they are prepared in the frame `f0`.
     * A step of `CloseCells`.
     */
    method PrepareCell(ghost f0: Frame, i: nat) returns (hs: seq<HalfEdge>, n: nat)
      requires EdgePool() && Grows(f0, Here())
      requires EdgesFresh(f0.junk, f0.count, f0.cells, f0.edgeAt, f0.vs)
      requires i < |f0.cells| == |cells| && cells[i] == f0.cells[i]
      modifies this`cells
      ensures EdgePool() && Grows(f0, Here()) && Grows(old(Here()), Here())
      ensures hs == Prepared(f0.edgeAt, f0.cells[i].halfEdges) && n == |hs|
      ensures cells == old(cells)[i := old(cells[i]).(halfEdges := hs)]
    {
      PreparedKept(f0, Here(), f0.cells[i].halfEdges);
      hs, n := PrepareList(EdgeOf(edgeAt), cells[i].halfEdges);
      NarrowedFresh(edgeJunkyard, edgeCount, cells, edgeAt, vertices, i, cells[i].(halfEdges := hs));
      cells := cells[i := cells[i].(halfEdges := hs)];
    }

    /**
     * The loop of closeCells over cell `i`: each gap between the end of a half-edge and
     * the start of the next is filled along the border.  `ok` is false where the source
     * throws, which is exactly when some gap cannot be filled; otherwise the cell is
     * closed, its half-edges the old ones with the runs laid woven in.
     * A step of `CloseCell`.
     */
    method CloseGaps(i: nat, box: Bounds) returns (ok: bool, ghost runs: seq<seq<HalfEdge>>, ghost vidss: seq<seq<nat>>)
      requires VertexPool() && EdgePool() && i < |cells| && OneOfEnds(startOf) && OneOfEnds(endOf)
      modifies this`vertexJunkyard, this`vertexAt, this`vertices, this`vertexCount,
        this`edgeJunkyard, this`edgeAt, this`edges, this`edgeCount, this`cells
      ensures VertexPool() && EdgePool() && Grows(old(Here()), Here()) && |cells| == |old(cells)|
      ensures ok <==> Closable(Ends(startOf, endOf, old(edgeAt), old(vertexAt)), old(cells[i].halfEdges), box)
      ensures ok ==> ClosedAs(Ends(startOf, endOf, edgeAt, vertexAt), old(cells[i].halfEdges), runs, vidss, old(cells[i].site), box, angle)
      ensures ok ==> cells == old(cells)[i := old(cells[i]).(halfEdges := Weave(old(cells[i].halfEdges), runs))]
    {
      ghost var f0, hs, site := Here(), cells[i].halfEdges, cells[i].site;
      CloseStart(startOf, endOf, angle, f0, i, box);
      var iLeft;
      ghost var k;
      ok, iLeft, k, runs, vidss := CloseLoop(f0, i, hs, site, box);
      if ok {
        CloseEnd(startOf, endOf, angle, f0, Here(), i, hs, site, box, iLeft, runs, vidss);
      }
    }

    /**
     * The `while` of `CloseGaps`: `ok` when every gap was filled, otherwise the `k`-th
     * gap is the one that cannot be.
     * A step of `CloseCell`.
     */
    method CloseLoop(ghost f0: Frame, i: nat, ghost hs: seq<HalfEdge>, ghost site: Site, box: Bounds)
      returns (ok: bool, iLeft: nat, ghost k: nat, ghost runs: seq<seq<HalfEdge>>, ghost vidss: seq<seq<nat>>)
      requires Closing(f0, i, hs, site, box, 0, 0, [], []) && OneOfEnds(startOf) && OneOfEnds(endOf)
      modifies this`vertexJunkyard, this`vertexAt, this`vertices, this`vertexCount,
        this`edgeJunkyard, this`edgeAt, this`edges, this`edgeCount, this`cells
      ensures VertexPool() && EdgePool() && Grows(f0, Here()) && |cells| == |f0.cells|
      ensures ok ==> Closing(f0, i, hs, site, box, |hs|, iLeft, runs, vidss)
      ensures !ok ==> k < |hs| && FillAt(Ends(startOf, endOf, f0.edgeAt, f0.vAt), hs, k, box).None?
    {
      iLeft, k, runs, vidss := 0, 0, [], [];
      ClosesLength(startOf, endOf, angle, f0, Here(), i, hs, site, box, k, iLeft, runs, vidss);
      while iLeft < |cells[i].halfEdges|
        invariant Closing(f0, i, hs, site, box, k, iLeft, runs, vidss) == true
        invariant |cells[i].halfEdges| == iLeft + |hs| - k
        decreases |hs| - k
      {
        ghost var run, vids;
        var iLeft';
        ok, iLeft', run, vids := GapStep(f0, i, hs, site, box, k, iLeft, runs, vidss);
        if !ok {
          return;
        }
        iLeft, runs, vidss, k := iLeft', runs + [run], vidss + [vids], k + 1;
        ClosesLength(startOf, endOf, angle, f0, Here(), i, hs, site, box, k, iLeft, runs, vidss);
      }
      ok := true;
    }

    /** The loop state of closeCells on cell `i` (see `Closes`), with both pools fresh. */
    ghost predicate Closing(f0: Frame, i: nat, hs: seq<HalfEdge>, site: Site, box: Bounds, k: nat, iLeft: nat,
                            runs: seq<seq<HalfEdge>>, vidss: seq<seq<nat>>)
      reads this`vertexJunkyard, this`vertexCount, this`cells, this`vertexAt, this`vertices, this`edgeAt, this`edgeJunkyard,
        this`edgeCount, this`edges
    {
      VertexPool() && EdgePool() && Closes(startOf, endOf, angle, f0, Here(), i, hs, site, box, k, iLeft, runs, vidss)
    }

    /**
     * One turn of the loop of closeCells on cell `i`: the end of the half-edge at `iLeft`,
     * the start of the next one (wrapping round), and when they are apart the walk along
     * the border between them.  `ok` is false where the source throws: a missing point
     * or a walk that never arrives.
     * A step of `CloseCell`.
     */
    method GapStep(ghost f0: Frame, i: nat, ghost hs: seq<HalfEdge>, ghost site: Site, box: Bounds, ghost k: nat, iLeft: nat,
                   ghost runs: seq<seq<HalfEdge>>, ghost vidss: seq<seq<nat>>)
      returns (ok: bool, iLeft': nat, ghost run: seq<HalfEdge>, ghost vids: seq<nat>)
      requires Closing(f0, i, hs, site, box, k, iLeft, runs, vidss) && k < |hs| && OneOfEnds(startOf) && OneOfEnds(endOf)
      modifies this`vertexJunkyard, this`vertexAt, this`vertices, this`vertexCount,
        this`edgeJunkyard, this`edgeAt, this`edges, this`edgeCount, this`cells
      ensures VertexPool() && EdgePool() && Grows(f0, Here()) && |cells| == |f0.cells|
      ensures ok <==> FillAt(Ends(startOf, endOf, f0.edgeAt, f0.vAt), hs, k, box).Some?
      ensures ok ==> Closing(f0, i, hs, site, box, k + 1, iLeft', runs + [run], vidss + [vids])
    {
      ghost var f1 := Here();
      GapAt(startOf, endOf, angle, f0, f1, i, hs, site, box, k, iLeft, runs, vidss);
      var halfEdges := cells[i].halfEdges;
      var a := EndId(endOf, edgeAt, halfEdges[iLeft]);
      var z := EndId(startOf, edgeAt, halfEdges[(iLeft + 1) % |halfEdges|]);
      var va, vz := Located(vertexAt, a), Located(vertexAt, z);
      iLeft', run, vids := iLeft, [], [];
      if va.None? || vz.None? {
        return false, iLeft', run, vids;
      }
      if PointLike(va.value, vz.value) {
        vids := [a.value];
        SpliceNone(halfEdges, iLeft + 1);
        CloseStep(startOf, endOf, angle, f0, f1, f1, i, hs, site, box, k, iLeft, runs, vidss, run, vids);
        return true, iLeft + 1, run, vids;
      }
      ok, iLeft', run, vids := WalkGap(f0, i, hs, site, box, k, iLeft, runs, vidss, a.value, vz.value);
    }

    /**
     * The walk of `GapStep` along the border from the vertex `va` to the point `vz`, apart from it.
     * A step of `CloseCell`.
     */
    method WalkGap(ghost f0: Frame, i: nat, ghost hs: seq<HalfEdge>, ghost site: Site, box: Bounds, ghost k: nat, iLeft: nat,
                   ghost runs: seq<seq<HalfEdge>>, ghost vidss: seq<seq<nat>>, va: nat, vz: Pt)
      returns (ok: bool, iLeft': nat, ghost run: seq<HalfEdge>, ghost vids: seq<nat>)
      requires Closing(f0, i, hs, site, box, k, iLeft, runs, vidss) && k < |hs| && va in vertices
      requires EndId(endOf, f0.edgeAt, hs[k]) == Some(va) && iLeft < |cells[i].halfEdges|
      requires FillAt(Ends(startOf, endOf, f0.edgeAt, f0.vAt), hs, k, box) == Gap(vertexAt[va], vz, box)
      modifies this`vertexJunkyard, this`vertexAt, this`vertices, this`vertexCount,
        this`edgeJunkyard, this`edgeAt, this`edges, this`edgeCount, this`cells
      ensures VertexPool() && EdgePool() && Grows(f0, Here()) && |cells| == |f0.cells|
      ensures ok <==> FillAt(Ends(startOf, endOf, f0.edgeAt, f0.vAt), hs, k, box).Some?
      ensures ok ==> Closing(f0, i, hs, site, box, k + 1, iLeft', runs + [run], vidss + [vids])
    {
      ghost var f1 := Here();
      ok, iLeft', run, vids := FillGap(i, iLeft, va, vz, box);
      GrowsTrans(f0, f1, Here());
      if ok {
        CloseStep(startOf, endOf, angle, f0, f1, Here(), i, hs, site, box, k, iLeft, runs, vidss, run, vids);
        iLeft' := iLeft' + 1;
      }
    }

    // -------------------------------------------------------------------------
    // compute, recycle and quantizeSites

    /**
     * What addBeachSection did for `site`, from the beachline `b0`, the arcs, edges and
     * vertices `g0`, the events `events0` and the queue `q0` it found: the search's
     * decisions `p` and landing `lArc`, `rArc`; the new arc `newArc` right after `lArc`
     * (with the arcs `arrived` once it is there) and the copy `copy` after it on a split;
     * then Added and Attached.
     */
    ghost predicate Arrived(site: Site, ok: bool, newArc: nat, lArc: Option<nat>, rArc: Option<nat>, copy: nat, v: nat, e1: nat, e2: nat,
                            p: seq<Place>, i: nat, arrived: map<nat, Arc>, b0: seq<nat>, g0: Growth, events0: map<nat, CircleEvent>, q0: seq<nat>)
      reads this`beachline, beachline, this`arcs, this`events, this`circleEvents, circleEvents, this`edges, this`edgeAt,
        this`vertices, this`vertexAt, this`voronoiId, this`cells
    {
      Decisions(sqrt, b0, g0.arcs, site, p) && Landed(p, b0, i, lArc, rArc)
      && (var b := InsertAfter(b0, lArc, newArc);
          if lArc.Some? && lArc == rArc then Beach() == InsertAfter(b, Some(newArc), copy) && copy !in b else Beach() == b)
      && newArc in arrived && arrived == g0.arcs[newArc := arrived[newArc]] && arrived[newArc].site == site && arrived[newArc].circle.None?
      && Added(site, lArc, rArc, newArc, copy, v, e1, e2, ok, voronoiId, |cells|, g0.(arcs := arrived), Grown())
      && Attached(lArc, rArc, copy, ok, events0, q0)
    }

    /**
     * A site event of Voronoi.compute: a cell for `site` stored at index `siteid`, the
     * next free one; the site's voronoiId set to it; then addBeachSection, as Arrived
     * says.  `ok` is false where addBeachSection would throw.
     */
    method HandleSite(site: Site, siteid: nat)
      returns (ok: bool, ghost newArc: nat, ghost lArc: Option<nat>, ghost rArc: Option<nat>, ghost copy: nat, ghost v: nat,
               ghost e1: nat, ghost e2: nat, ghost p: seq<Place>, ghost i: nat, ghost arrived: map<nat, Arc>)
      requires Valid() && siteid == |cells|
      modifies this`arcs, this`beachSectionJunkyard, this`arcCount, beachline, this`firstCircleEvent, this`circleEventJunkyard,
        circleEvents, this`events, this`eventCount, this`vertexJunkyard, this`vertexAt, this`vertices, this`vertexCount,
        this`edgeJunkyard, this`edgeAt, this`edges, this`edgeCount, this`cells, this`cellJunkyard, this`voronoiId
      ensures Valid() && SameSites(old(cells) + [Blank(site)], cells)
      ensures voronoiId == old(voronoiId)[site.id := siteid]
      ensures Arrived(site, ok, newArc, lArc, rArc, copy, v, e1, e2, p, i, arrived, old(Beach()), old(Grown()), old(events), old(Queue())) == true
      ensures (lArc.Some? ==> lArc.value in old(arcs)) && (rArc.Some? ==> rArc.value in old(arcs))
      ensures cells == AddedCells(angle, voronoiId, vertexAt, old(cells) + [Blank(site)], site, lArc, rArc, old(arcs), v, e1, e2, ok)
    {
      ghost var b0, g0, events0, q0 := Beach(), Grown(), events, Queue();
      var c := CreateCell(site);
      cells := cells + [c];
      voronoiId := voronoiId[site.id := siteid];
      assert Beach() == b0 && Grown() == g0 && events == events0 && Queue() == q0;
      ok, newArc, lArc, rArc, copy, v, e1, e2, p, i, arrived := SiteArrives(site);
    }

    /** addBeachSection for the site of a site event, of which compute keeps only whether it threw. */
    method SiteArrives(site: Site)
      returns (ok: bool, ghost newArc: nat, ghost lArc: Option<nat>, ghost rArc: Option<nat>, ghost copy: nat, ghost v: nat,
               ghost e1: nat, ghost e2: nat, ghost p: seq<Place>, ghost i: nat, ghost arrived: map<nat, Arc>)
      requires Valid()
      modifies this`arcs, this`beachSectionJunkyard, this`arcCount, beachline, this`firstCircleEvent, this`circleEventJunkyard,
        circleEvents, this`events, this`eventCount, this`vertexJunkyard, this`vertexAt, this`vertices, this`vertexCount,
        this`edgeJunkyard, this`edgeAt, this`edges, this`edgeCount, this`cells
      ensures Valid() && SameSites(old(cells), cells) && voronoiId == old(voronoiId)
      ensures Arrived(site, ok, newArc, lArc, rArc, copy, v, e1, e2, p, i, arrived, old(Beach()), old(Grown()), old(events), old(Queue())) == true
      ensures (lArc.Some? ==> lArc.value in old(arcs)) && (rArc.Some? ==> rArc.value in old(arcs))
      ensures cells == AddedCells(angle, voronoiId, vertexAt, old(cells), site, lArc, rArc, old(arcs), v, e1, e2, ok)
    {
      ghost var g0 := Grown();
      ok, newArc, lArc, rArc, copy, v, e1, e2, p, i, arrived := AddBeachSection(site);
      assert g0.(arcs := arrived) == Growth(arrived, old(edges), old(edgeAt), old(vertices), old(vertexAt));
    }

    /** The first circle event belongs to an arc of the beachline that points back at it. */
    lemma FirstEventLinked()
      requires Valid() && firstCircleEvent.Some?
      ensures firstCircleEvent.value in Queue() && firstCircleEvent.value in events
      ensures var arc := events[firstCircleEvent.value].arc;
        arc in Beach() && arc in arcs && arcs[arc].circle == firstCircleEvent
    {
      assert Queue()[0] in Queue();
    }

    /**
     * A circle event of Voronoi.compute: removeBeachSection on the arc of the first circle
     * event.  `ok` is false where removeBeachSection would throw.
     */
    method HandleCircle()
      returns (ok: bool, ghost arc: nat, ghost v: nat, ghost e: nat, ghost b: seq<nat>, ghost k: nat, ghost j: int, ghost m: int)
      requires Valid() && firstCircleEvent.Some?
      modifies this`arcs, this`firstCircleEvent, this`circleEventJunkyard, circleEvents, this`beachSectionJunkyard, beachline,
        this`edgeJunkyard, this`edgeAt, this`edges, this`edgeCount, this`cells, this`events, this`eventCount,
        this`vertexJunkyard, this`vertexAt, this`vertices, this`vertexCount
      ensures Valid() && SameSites(old(cells), cells)
      ensures old(firstCircleEvent).value in old(events) && arc == old(events)[old(firstCircleEvent).value].arc
      ensures b == old(Beach()) && k < |b| && b[k] == arc && arc in old(arcs) && old(arcs)[arc].circle == old(firstCircleEvent)
      ensures var c := old(events)[old(firstCircleEvent).value];
        vertexAt == old(vertexAt)[v := Pt(c.x, c.ycenter)] && vertices == old(vertices) + [v]
        && Removed(b, k, old(arcs), old(Snap()), c.x, c.ycenter, v, old(beachSectionJunkyard) + [arc], ok, e, j, m, Now())
      ensures ok ==> 0 <= j < m < |b| && Pending(b[j]) && Pending(b[m])
      ensures (forall a :: a in b ==> a in old(arcs))
        && cells == Bridged(angle, voronoiId, vertexAt, old(cells), b, j, m, old(arcs), old(edgeAt), v, e)
    {
      FirstEventLinked();
      var a := events[firstCircleEvent.value].arc;
      assert forall a :: a in Beach() ==> a in arcs;
      var v', e';
      ok, v', e', b, k, j, m := RemoveBeachSection(a);
      arc, v, e := a, v', e';
    }

    /** The state of compute's main loop: the sweep's invariant, `siteid` the next cell index, and `SweepsSites`. */
    ghost predicate SweepLoop(s: seq<Site>, rest: seq<Site>, site: Option<Site>, done: seq<Site>, kept: seq<Site>,
                              xsite: Option<Site>, siteid: nat)
      reads this`beachline, this`circleEvents, this`arcs, this`events, this`firstCircleEvent,
        this`beachSectionJunkyard, this`circleEventJunkyard, this`arcCount, this`eventCount,
        beachline, circleEvents, this`cells, this`voronoiId
    {
      Valid() && siteid == |cells| && SweepsSites(s, rest, site, done, kept, xsite, cells, voronoiId)
    }

    /** `this.firstCircleEvent` as compute reads it: none exactly when the queue is empty. */
    method FirstCircle() returns (circle: Option<CircleEvent>)
      requires Valid()
      ensures circle.Some? <==> firstCircleEvent.Some?
      ensures circle.Some? ==> firstCircleEvent.value in events && circle.value == events[firstCircleEvent.value]
      ensures circle.None? <==> Queue() == []
    {
      if firstCircleEvent.None? {
        return None;
      }
      FirstEventLinked();
      circle := Some(events[firstCircleEvent.value]);
    }

    /**
     * The circle branch of compute's main loop: the loop's state holds on.
     * A step of `Sweep`.
     */
    method CircleStep(ghost s: seq<Site>, ghost rest: seq<Site>, ghost site: Option<Site>, ghost done: seq<Site>,
                      ghost kept: seq<Site>, ghost xsite: Option<Site>, ghost siteid: nat) returns (ok: bool)
      requires SweepLoop(s, rest, site, done, kept, xsite, siteid) && firstCircleEvent.Some?
      modifies this`arcs, this`firstCircleEvent, this`circleEventJunkyard, circleEvents, this`beachSectionJunkyard, beachline,
        this`edgeJunkyard, this`edgeAt, this`edges, this`edgeCount, this`cells, this`events, this`eventCount,
        this`vertexJunkyard, this`vertexAt, this`vertices, this`vertexCount
      ensures SweepLoop(s, rest, site, done, kept, xsite, siteid)
    {
      ghost var cells0 := cells;
      ghost var arc, v, e, b, k, j, m;
      ok, arc, v, e, b, k, j, m := HandleCircle();
      SweepsCircle(s, rest, site, done, kept, xsite, cells0, cells, voronoiId);
    }

    /**
     * The site branch of compute's main loop: the site in hand is handled when it is not
     * at the place (`xsite`) of the last site kept, and skipped otherwise.
     * A step of `Sweep`.
     */
    method TakeSite(ghost s: seq<Site>, ghost rest: seq<Site>, site: Site, ghost done: seq<Site>, ghost kept: seq<Site>,
                    xsite: Option<Site>, siteid: nat)
      returns (ok: bool, ghost kept': seq<Site>, xsite': Option<Site>, siteid': nat)
      requires SameIds(s) && SweepLoop(s, rest, Some(site), done, kept, xsite, siteid)
      modifies this`arcs, this`beachSectionJunkyard, this`arcCount, beachline, this`firstCircleEvent, this`circleEventJunkyard,
        circleEvents, this`events, this`eventCount, this`vertexJunkyard, this`vertexAt, this`vertices, this`vertexCount,
        this`edgeJunkyard, this`edgeAt, this`edges, this`edgeCount, this`cells, this`cellJunkyard, this`voronoiId
      ensures SweepLoop(s, Pop(rest).1, Pop(rest).0, done + [site], kept', xsite', siteid')
    {
      if !(xsite.Some? && SamePlace(site, xsite.value)) {
        ghost var cells0, vid0 := cells, voronoiId;
        ghost var newArc, lArc, rArc, copy, v, e1, e2, p, i, arrived;
        ok, newArc, lArc, rArc, copy, v, e1, e2, p, i, arrived := HandleSite(site, siteid);
        SweepsKeep(s, rest, site, done, kept, xsite, cells0, vid0, cells, voronoiId);
        return ok, kept + [site], Some(site), siteid + 1;
      }
      SweepsSkip(s, rest, site, done, kept, xsite, cells, voronoiId);
      return true, kept, xsite, siteid;
    }

    /**
     * The main loop of Voronoi.compute over the sorted sites `siteEvents`: while a site is
     * in hand and comes before the first circle event, it is handled (unless it is at the
     * place of the last site kept) and the next one popped; otherwise the first circle
     * event is handled; with neither, the sweep is over.  `ok` is false where the source
     * throws, or when `fuel` steps did not finish the sweep.  Once it is over, the queue
     * is empty and the cells are those of the sites `Dedup` keeps, in pop order.
     */
    method Sweep(siteEvents: seq<Site>, fuel: nat) returns (ok: bool, ghost kept: seq<Site>)
      requires Valid() && cells == [] && SameIds(siteEvents)
      modifies this`arcs, this`beachSectionJunkyard, this`arcCount, beachline, this`firstCircleEvent, this`circleEventJunkyard,
        circleEvents, this`events, this`eventCount, this`vertexJunkyard, this`vertexAt, this`vertices, this`vertexCount,
        this`edgeJunkyard, this`edgeAt, this`edges, this`edgeCount, this`cells, this`cellJunkyard, this`voronoiId
      ensures Valid() && CellsOf(cells, voronoiId, kept)
      ensures ok ==> Queue() == [] && kept == Dedup(Reversed(siteEvents), None)
    {
      var site, rest := Pop(siteEvents).0, Pop(siteEvents).1;
      PoppingStart(siteEvents);
      var siteid: nat := 0;
      var xsite: Option<Site> := None;
      ghost var done: seq<Site> := [];
      kept := [];
      var budget := fuel;
      while budget > 0
        invariant SweepLoop(siteEvents, rest, site, done, kept, xsite, siteid) == true
        decreases budget
      {
        budget := budget - 1;
        var circle := FirstCircle();
        if SiteEventFirst(site, circle) {
          ok, kept, xsite, siteid := TakeSite(siteEvents, rest, site.value, done, kept, xsite, siteid);
          done := done + [site.value];
          site, rest := Pop(rest).0, Pop(rest).1;
          if !ok {
            return;
          }
        } else if circle.Some? {
          ok := CircleStep(siteEvents, rest, site, done, kept, xsite, siteid);
          if !ok {
            return;
          }
        } else {
          PoppingEnd(siteEvents, rest, done);
          return true, kept;
        }
      }
      ok := false;
    }

    /** What the wrap-up needs: the vertex and edge pools fresh, and the edges ready for clipEdges. */
    predicate WrapReady()
      reads this`vertexJunkyard, this`vertexCount, this`vertices, this`vertexAt, this`edgeJunkyard, this`edgeCount,
        this`cells, this`edgeAt, this`edges, this`voronoiId
    {
      VertexPool() && EdgePool() && EdgesReady(edges)
    }

    /**
     * The wrap-up of Voronoi.compute: clipEdges, then closeCells, and the diagram of the
     * cells, edges and vertices.  It runs only from a state `WrapReady` accepts.  `mid` is
     * the state clipEdges leaves: its edges are the survivors, and `ok` holds exactly when
     * closeCells can close every cell of it; each is then closed as `CellClosed` says, after
     * the survivors come the border edges, and only cells without half-edges stay marked.
     */
    method WrapUp(box: Bounds) returns (ok: bool, d: Diagram, ghost mid: Frame, ghost runss: seq<seq<seq<HalfEdge>>>,
                                       ghost vidsss: seq<seq<seq<nat>>>)
      requires OneOfEnds(startOf) && OneOfEnds(endOf)
      modifies this`vertexJunkyard, this`vertexAt, this`vertices, this`vertexCount,
        this`edgeJunkyard, this`edgeAt, this`edges, this`edgeCount, this`cells
      ensures ok ==> old(WrapReady())
      ensures old(WrapReady()) ==>
        mid.edges == Survivors(old(edges), old(edgeAt), old(vertexAt), box) && Marked(old(cells), mid.cells)
        && (ok <==> forall j :: 0 <= j < |mid.cells| ==>
              CellOk(Ends(startOf, endOf, mid.edgeAt, mid.vAt), mid.cells[j], Prepared(mid.edgeAt, mid.cells[j].halfEdges), box))
      ensures ok ==> (d == Diagram(cells, edges, vertices) && mid.edges <= edges
                      && |runss| == |vidsss| == |cells| == |mid.cells| && SameSites(old(cells), cells))
      ensures ok ==> forall j :: 0 <= j < |cells| ==>
        CellClosed(Ends(startOf, endOf, edgeAt, vertexAt), mid.cells[j], cells[j], Prepared(mid.edgeAt, mid.cells[j].halfEdges),
                   runss[j], vidsss[j], box, angle)
        && (cells[j].closeMe ==> cells[j].halfEdges == [])
    {
      d, mid, runss, vidsss := Diagram([], [], []), Here(), [], [];
      if !WrapReady() {
        return false, d, mid, runss, vidsss;
      }
      ghost var E0, edgeAt0, vAt0, vs0, cells0 := edges, edgeAt, vertexAt, vertices, cells;
      ClipEdges(box);
      forall e | e in E0 ensures e in edgeAt && EndsIn(edgeAt[e], vertices) {
        SettledEndsIn(edgeAt[e], edgeAt0[e], FateOf(edgeAt0[e], vAt0, box), vertexAt, vertices);
      }
      ClipKeepsFresh(edgeJunkyard, edgeCount, cells0, edgeAt0, vs0, cells, edgeAt, vertices, E0);
      mid := Here();
      ok, runss, vidsss := CloseCells(box);
      if !ok {
        return;
      }
      forall j | 0 <= j < |cells| ensures cells[j].site == cells0[j].site && (cells[j].closeMe ==> cells[j].halfEdges == []) {
        ClosedUnmarked(Ends(startOf, endOf, edgeAt, vertexAt), mid.cells[j], cells[j], Prepared(mid.edgeAt, mid.cells[j].halfEdges),
                       runss[j], vidsss[j], box, angle);
      }
      d := Diagram(cells, edges, vertices);
    }

    /** The start of Voronoi.compute: the vertices, edges and cells of a diagram given to recycle join their pools. */
    method TakeRecycled()
      modifies this`vertexJunkyard, this`edgeJunkyard, this`cellJunkyard, this`toRecycle
      ensures toRecycle == None
      ensures var r := old(toRecycle);
        vertexJunkyard == old(vertexJunkyard) + (if r.Some? then r.value.vertices else [])
        && edgeJunkyard == old(edgeJunkyard) + (if r.Some? then r.value.edges else [])
        && cellJunkyard == old(cellJunkyard) + (if r.Some? then r.value.cells else [])
    {
      if toRecycle.Some? {
        var r := toRecycle.value;
        vertexJunkyard := vertexJunkyard + r.vertices;
        edgeJunkyard := edgeJunkyard + r.edges;
        cellJunkyard := cellJunkyard + r.cells;
        toRecycle := None;
      }
    }

    /** Voronoi.recycle: a diagram handed back is kept for the next compute; no diagram leaves things as they are. */
    method Recycle(diagram: Option<Diagram>)
      modifies this`toRecycle
      ensures toRecycle == if diagram.Some? then diagram else old(toRecycle)
    {
      if diagram.Some? {
        toRecycle := diagram;
      }
    }

    /**
     * Voronoi.compute: reset, recycle, sort the sites, sweep, wrap up and reset again.  On
     * success the diagram's cells are those of `KeptSites(sites)` in order, each site's
     * voronoiId is its cell's index, only cells without half-edges are left marked for
     * closing, and the engine is empty again.  `None` where the source throws, where the
     * sweep did not finish in `fuel` steps, or where the wrap-up's state is not
     * `WrapReady`.
     */
    method Compute(sites: seq<Site>, box: Bounds, fuel: nat)
      returns (d: Option<Diagram>, ghost kept: seq<Site>, ghost swept: Frame, ghost mid: Frame,
               ghost runss: seq<seq<seq<HalfEdge>>>, ghost vidsss: seq<seq<seq<nat>>>)
      requires Valid() && Queue() == [] && SameIds(sites) && OneOfEnds(startOf) && OneOfEnds(endOf)
      modifies this`arcs, this`beachSectionJunkyard, this`arcCount, beachline, this`firstCircleEvent, this`circleEventJunkyard,
        circleEvents, this`events, this`eventCount, this`vertexJunkyard, this`vertexAt, this`vertices, this`vertexCount,
        this`edgeJunkyard, this`edgeAt, this`edges, this`edgeCount, this`cells, this`cellJunkyard, this`voronoiId, this`toRecycle
      ensures Valid() && toRecycle == None
      ensures d.Some? ==> kept == KeptSites(sites) && |d.value.cells| == |kept|
      ensures d.Some? ==> forall k :: 0 <= k < |kept| ==>
        d.value.cells[k].site == kept[k] && kept[k].id in voronoiId && voronoiId[kept[k].id] == k && (d.value.cells[k].closeMe ==> d.value.cells[k].halfEdges == [])
      ensures d.Some? ==> WrappedUp(swept, mid, d.value, runss, vidsss, box, Ends(startOf, endOf, edgeAt, vertexAt), angle)
      ensures d.Some? ==> Beach() == [] && Queue() == [] && vertices == [] && edges == [] && cells == []
    {
      Reset();
      TakeRecycled();
      var siteEvents := SortSites(sites);
      SameIdsPermuted(sites, siteEvents);
      d, kept, swept, mid, runss, vidsss := SweepAndConclude(siteEvents, box, fuel);
      if d.Some? {
        KeptIncreasing(sites);
        KeptIds(kept, voronoiId);
      }
    }

    /** The main loop of compute over the sorted sites, then `Conclude`. */
    method SweepAndConclude(siteEvents: seq<Site>, box: Bounds, fuel: nat)
      returns (d: Option<Diagram>, ghost kept: seq<Site>, ghost swept: Frame, ghost mid: Frame,
               ghost runss: seq<seq<seq<HalfEdge>>>, ghost vidsss: seq<seq<seq<nat>>>)
      requires Valid() && cells == [] && SameIds(siteEvents) && OneOfEnds(startOf) && OneOfEnds(endOf)
      modifies this`arcs, this`beachSectionJunkyard, this`arcCount, beachline, this`firstCircleEvent, this`circleEventJunkyard,
        circleEvents, this`events, this`eventCount, this`vertexJunkyard, this`vertexAt, this`vertices, this`vertexCount,
        this`edgeJunkyard, this`edgeAt, this`edges, this`edgeCount, this`cells, this`cellJunkyard, this`voronoiId
      ensures Valid()
      ensures d.Some? ==> kept == Dedup(Reversed(siteEvents), None) && IdsOf(kept, voronoiId)
      ensures d.Some? ==> |d.value.cells| == |kept|
      ensures d.Some? ==> WrappedUp(swept, mid, d.value, runss, vidsss, box, Ends(startOf, endOf, edgeAt, vertexAt), angle)
      ensures d.Some? ==> forall k :: 0 <= k < |kept| ==>
        d.value.cells[k].site == kept[k] && (d.value.cells[k].closeMe ==> d.value.cells[k].halfEdges == [])
      ensures d.Some? ==> Beach() == [] && Queue() == [] && vertices == [] && edges == [] && cells == []
    {
      var ok;
      ok, kept := Sweep(siteEvents, fuel);
      if !ok {
        swept := Frame(cells, vertexAt, vertices, edgeAt, edgeJunkyard, edgeCount, edges);
        return None, kept, swept, swept, [], [];
      }
      d, swept, mid, runss, vidsss := Conclude(box, kept);
    }

    /**
     * The end of compute once the sweep is over: the wrap-up, and on success the diagram
     * and a reset.  The diagram's cells keep their sites and order, and only those without
     * half-edges stay marked for closing.
     * A step of `Compute`.
     */
    method Conclude(box: Bounds, ghost kept: seq<Site>) returns (d: Option<Diagram>, ghost swept: Frame, ghost mid: Frame,
                                                              ghost runss: seq<seq<seq<HalfEdge>>>, ghost vidsss: seq<seq<seq<nat>>>)
      requires Valid() && Queue() == [] && OneOfEnds(startOf) && OneOfEnds(endOf) && CellsOf(cells, voronoiId, kept)
      modifies this`beachSectionJunkyard, this`firstCircleEvent, beachline, circleEvents, this`vertexJunkyard, this`vertexAt,
        this`vertices, this`vertexCount, this`edgeJunkyard, this`edgeAt, this`edges, this`edgeCount, this`cells
      ensures Valid()
      ensures swept.cells == old(cells) && swept.edges == old(edges) && swept.edgeAt == old(edgeAt) && swept.vAt == old(vertexAt)
      ensures d.Some? ==> WrappedUp(swept, mid, d.value, runss, vidsss, box, Ends(startOf, endOf, edgeAt, vertexAt), angle)
      ensures d.Some? ==> |d.value.cells| == |kept|
      ensures d.Some? ==> forall k :: 0 <= k < |kept| ==>
        d.value.cells[k].site == kept[k] && (d.value.cells[k].closeMe ==> d.value.cells[k].halfEdges == [])
      ensures d.Some? ==> Beach() == [] && Queue() == [] && vertices == [] && edges == [] && cells == []
    {
      swept := Frame(cells, vertexAt, vertices, edgeAt, edgeJunkyard, edgeCount, edges);
      var ok, diagram;
      ok, diagram, mid, runss, vidsss := WrapUp(box);
      if !ok {
        return None, swept, mid, runss, vidsss;
      }
      assert WrappedUp(swept, mid, diagram, runss, vidsss, box, Ends(startOf, endOf, edgeAt, vertexAt), angle);
      Reset();
      d := Some(diagram);
    }

    /** Voronoi.quantizeSites: from the last to the first, every site is snapped to the ε grid in place. */
    method QuantizeSites(sites: array<Site>)
      modifies sites
      ensures forall k :: 0 <= k < sites.Length ==> sites[k] == QuantizedSite(old(sites[k]))
    {
      var n := sites.Length;
      while n > 0
        invariant 0 <= n <= sites.Length
        invariant forall k :: 0 <= k < n ==> sites[k] == old(sites[k])
        invariant forall k :: n <= k < sites.Length ==> sites[k] == QuantizedSite(old(sites[k]))
      {
        n := n - 1;
        var site := sites[n];
        sites[n] := Site(site.id, Quantize(site.x), Quantize(site.y));
      }
    }
  }

  /**
   * The ids of a tree from its first node along the `next` thread: its in-order sequence.
   * A step of `Reset`.
   */
  method Thread(t: RBTree) returns (s: seq<nat>)
    requires t.Valid()
    ensures s == t.Elements()
  {
    ghost var b := t.Elements();
    s := [];
    if t.root != Nil {
      var c, first := GetFirst(t.root);
      var node: Option<nat> := Some(first.id);
      ghost var i := 0;
      while node.Some?
        invariant 0 <= i <= |b| && s == b[..i]
        invariant node == (if i < |b| then Some(b[i]) else None)
        decreases |b| - i
      {
        assert LinkedAt(b, i, t.previous, t.next);
        s := s + [node.value];
        node := t.next[node.value];
        i := i + 1;
      }
      assert s == b;
    }
  }
}
