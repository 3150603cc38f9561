/**
 * What the wrap-up of src/Voronoi.js (clipEdges and closeCells) does to the edges and
 * cells, stated on the id maps the engine keeps: which edges clipEdges keeps and where
 * their ends end up, and which border half-edges closeCells lays into a cell.  The
 * engine (module Fortune) is proved against these.
 */
module WrapUp {
  import opened Wrappers
  import opened Points
  import opened Sites
  import opened RBNodes
  import opened Edges
  import opened Cells
  import opened Epsilon
  import opened Clipping
  import opened Border
  import opened SweepState

  /** Where the vertex `v` lies: nothing when it is unset or unknown. */
  function Located(vAt: map<nat, Pt>, v: Option<nat>): (p: Option<Pt>)
    ensures p.Some? <==> v.Some? && v.value in vAt
    ensures p.Some? ==> p.value == vAt[v.value]
  {
    if v.Some? && v.value in vAt then Some(vAt[v.value]) else None
  }

  /** The edge with the given id; an unknown id reads as an edge with no sites and no ends. */
  function EdgeOf(m: map<nat, EdgeState<nat>>): nat -> EdgeState<nat>
  {
    e => if e in m then m[e] else EdgeState(None, None, None, None)
  }

  /** The positions of `vAt0` at the vertices `vs0` are still there in `vAt`, and `vs` lists them all. */
  predicate Keeps(vAt0: map<nat, Pt>, vs0: seq<nat>, vAt: map<nat, Pt>, vs: seq<nat>)
  {
    (forall v :: v in vs0 ==> v in vs)
    && (forall v :: v in vs0 && v in vAt0 ==> v in vAt && vAt[v] == vAt0[v])
  }

  /** Keeping positions is transitive. */
  lemma KeepsTrans(vAt0: map<nat, Pt>, vs0: seq<nat>, vAt1: map<nat, Pt>, vs1: seq<nat>, vAt2: map<nat, Pt>, vs2: seq<nat>)
    requires Keeps(vAt0, vs0, vAt1, vs1) && Keeps(vAt1, vs1, vAt2, vs2)
    ensures Keeps(vAt0, vs0, vAt2, vs2)
  {
  }

  /** `c1` is `c0` with some more cells marked for closing: same sites, same half-edges. */
  predicate Marked(c0: seq<CellState>, c1: seq<CellState>)
  {
    |c1| == |c0|
    && forall i :: 0 <= i < |c0| ==>
         c1[i].site == c0[i].site && c1[i].halfEdges == c0[i].halfEdges && (c0[i].closeMe ==> c1[i].closeMe)
  }

  /** Marking is transitive. */
  lemma MarkedTrans(c0: seq<CellState>, c1: seq<CellState>, c2: seq<CellState>)
    requires Marked(c0, c1) && Marked(c1, c2)
    ensures Marked(c0, c2)
  {
  }

  /** `cells[i].closeMe = true`. */
  function Flag(cs: seq<CellState>, i: nat): (r: seq<CellState>)
    requires i < |cs|
    ensures Marked(cs, r) && r[i].closeMe
    ensures forall j :: 0 <= j < |cs| && j != i ==> r[j] == cs[j]
  {
    cs[i := cs[i].(closeMe := true)]
  }

  // ---------------------------------------------------------------------------
  // clipEdges

  /** What connectEdge and clipEdge read of an edge: both sites, an end only after a start, and the ends' positions. */
  predicate Ready(es: EdgeState<nat>, vAt: map<nat, Pt>)
  {
    es.left.Some? && es.right.Some? && (es.vb.Some? ==> es.va.Some?)
    && (es.va.Some? ==> es.va.value in vAt) && (es.vb.Some? ==> es.vb.value in vAt)
  }

  /** The ends of the edge are among the vertices `vs`. */
  predicate EndsIn(es: EdgeState<nat>, vs: seq<nat>)
  {
    (es.va.Some? ==> es.va.value in vs) && (es.vb.Some? ==> es.vb.value in vs)
  }

  /** clipEdge moves an end of the segment from `a` to `b`: the window it keeps starts past 0 or ends short of 1. */
  predicate Moves(a: Pt, b: Pt, box: Bounds)
  {
    match LiangBarsky(a, b, box)
    case Rejected => false
    case Window(t0, t1) => t0 > 0.0 || t1 < 1.0
  }

  /** What clipEdges makes of the edge `es` with its ends placed by `vAt`: the ends it keeps, or none. */
  function FateOf(es: EdgeState<nat>, vAt: map<nat, Pt>, box: Bounds): Option<(Pt, Pt)>
    requires Ready(es, vAt)
  {
    Fate(es.left.value, es.right.value, Located(vAt, es.va), Located(vAt, es.vb), box)
  }

  /** Moving to a state that keeps the positions of the edge's ends changes neither its readiness nor its fate. */
  lemma FateOfKept(es: EdgeState<nat>, vAt0: map<nat, Pt>, vs0: seq<nat>, vAt: map<nat, Pt>, vs: seq<nat>, box: Bounds)
    requires Ready(es, vAt0) && EndsIn(es, vs0) && Keeps(vAt0, vs0, vAt, vs)
    ensures Ready(es, vAt) && EndsIn(es, vs) && FateOf(es, vAt, box) == FateOf(es, vAt0, box)
  {
    assert Located(vAt, es.va) == Located(vAt0, es.va);
    assert Located(vAt, es.vb) == Located(vAt0, es.vb);
  }

  /** The edges of `es` that clipEdges keeps, in their order. */
  function Survivors(es: seq<nat>, edgeAt: map<nat, EdgeState<nat>>, vAt: map<nat, Pt>, box: Bounds): (r: seq<nat>)
    requires forall e :: e in es ==> e in edgeAt && Ready(edgeAt[e], vAt)
    ensures forall e :: e in r <==> e in es && FateOf(edgeAt[e], vAt, box).Some?
    ensures |r| <= |es|
  {
    if es == [] then []
    else
      var rest := Survivors(es[1..], edgeAt, vAt, box);
      assert forall e :: e in es <==> e == es[0] || e in es[1..];
      (if FateOf(edgeAt[es[0]], vAt, box).Some? then [es[0]] else []) + rest
  }

  /**
   * `es1` is what clipEdges leaves of the edge `es0` whose fate is `f`: the same sites;
   * both ends cleared when it is dropped, both ends at listed vertices placed at the
   * kept positions when it is kept.
   */
  predicate Settled(es1: EdgeState<nat>, es0: EdgeState<nat>, f: Option<(Pt, Pt)>, vAt: map<nat, Pt>, vs: seq<nat>)
  {
    es1.left == es0.left && es1.right == es0.right
    && match f
       case None => es1.va.None? && es1.vb.None?
       case Some(ends) =>
         es1.va.Some? && es1.vb.Some? && es1.va.value in vs && es1.vb.value in vs
         && Located(vAt, es1.va) == Some(ends.0) && Located(vAt, es1.vb) == Some(ends.1)
  }

  /** A settled edge stays settled in any state that keeps the positions of its vertices. */
  lemma SettledKept(es1: EdgeState<nat>, es0: EdgeState<nat>, f: Option<(Pt, Pt)>, vAt0: map<nat, Pt>, vs0: seq<nat>, vAt: map<nat, Pt>, vs: seq<nat>)
    requires Settled(es1, es0, f, vAt0, vs0) && Keeps(vAt0, vs0, vAt, vs)
    ensures Settled(es1, es0, f, vAt, vs)
  {
    if f.Some? {
      assert Located(vAt, es1.va) == Located(vAt0, es1.va);
      assert Located(vAt, es1.vb) == Located(vAt0, es1.vb);
    }
  }

  /** What clipEdges starts from: the listed edges `E0` are known in `edgeAt0`, ready and end at vertices of `vs0`. */
  predicate Listed(E0: seq<nat>, edgeAt0: map<nat, EdgeState<nat>>, vAt0: map<nat, Pt>, vs0: seq<nat>)
  {
    Distinct(E0) && forall e :: e in E0 ==> (e in edgeAt0 && Ready(edgeAt0[e], vAt0) && EndsIn(edgeAt0[e], vs0))
  }

  /**
   * The state (`edges`, `edgeAt`, `vAt`, `vs`, `cells`) of clipEdges once the edges
   * `E0[i..]` of the start state are finished: they are settled and their survivors
   * listed after the unfinished edges, the other edges untouched, the positions of the
   * start vertices kept and the cells only marked.
   */
  predicate ClipsDone(E0: seq<nat>, edgeAt0: map<nat, EdgeState<nat>>, vAt0: map<nat, Pt>, vs0: seq<nat>, cells0: seq<CellState>,
                      box: Bounds, i: nat, edges: seq<nat>, edgeAt: map<nat, EdgeState<nat>>, vAt: map<nat, Pt>, vs: seq<nat>,
                      cells: seq<CellState>)
    requires i <= |E0| && Listed(E0, edgeAt0, vAt0, vs0)
  {
    Keeps(vAt0, vs0, vAt, vs) && Marked(cells0, cells)
    && edges == E0[..i] + Survivors(E0[i..], edgeAt0, vAt0, box)
    && edgeAt.Keys == edgeAt0.Keys
    && (forall e :: e in edgeAt0 && e !in E0[i..] ==> edgeAt[e] == edgeAt0[e])
    && (forall e :: e in E0[i..] ==> Settled(edgeAt[e], edgeAt0[e], FateOf(edgeAt0[e], vAt0, box), vAt, vs))
  }

  /** Before clipEdges' walk nothing is finished yet. */
  lemma ClipsStart(E0: seq<nat>, edgeAt0: map<nat, EdgeState<nat>>, vAt0: map<nat, Pt>, vs0: seq<nat>, cells0: seq<CellState>, box: Bounds)
    requires Listed(E0, edgeAt0, vAt0, vs0)
    ensures ClipsDone(E0, edgeAt0, vAt0, vs0, cells0, box, |E0|, E0, edgeAt0, vAt0, vs0, cells0)
  {
    assert E0[|E0|..] == [] && E0[..|E0|] == E0;
  }

  /** After the walk every edge is finished: the survivors of all of them are listed, and every one is settled. */
  lemma ClipsEnd(E0: seq<nat>, edgeAt0: map<nat, EdgeState<nat>>, vAt0: map<nat, Pt>, vs0: seq<nat>, cells0: seq<CellState>,
                 box: Bounds, edges: seq<nat>, edgeAt: map<nat, EdgeState<nat>>, vAt: map<nat, Pt>, vs: seq<nat>, cells: seq<CellState>)
    requires Listed(E0, edgeAt0, vAt0, vs0)
    requires ClipsDone(E0, edgeAt0, vAt0, vs0, cells0, box, 0, edges, edgeAt, vAt, vs, cells)
    ensures Keeps(vAt0, vs0, vAt, vs) && Marked(cells0, cells)
    ensures edges == Survivors(E0, edgeAt0, vAt0, box) && edgeAt.Keys == edgeAt0.Keys
    ensures forall e :: e in E0 ==> Settled(edgeAt[e], edgeAt0[e], FateOf(edgeAt0[e], vAt0, box), vAt, vs)
    ensures forall e :: e in edgeAt0 && e !in E0 ==> edgeAt[e] == edgeAt0[e]
  {
    assert E0[0..] == E0 && E0[..0] == [];
  }

  /** Before the step on `E0[i - 1]`: it is the edge listed at `i - 1`, untouched, ready, and its fate is unchanged. */
  lemma ClipNext(E0: seq<nat>, edgeAt0: map<nat, EdgeState<nat>>, vAt0: map<nat, Pt>, vs0: seq<nat>, cells0: seq<CellState>,
                 box: Bounds, i: nat, edges: seq<nat>, edgeAt: map<nat, EdgeState<nat>>, vAt: map<nat, Pt>, vs: seq<nat>,
                 cells: seq<CellState>)
    requires 0 < i <= |E0| && Listed(E0, edgeAt0, vAt0, vs0)
    requires ClipsDone(E0, edgeAt0, vAt0, vs0, cells0, box, i, edges, edgeAt, vAt, vs, cells)
    ensures var e := E0[i - 1];
      i - 1 < |edges| && edges[i - 1] == e && e in edgeAt && edgeAt[e] == edgeAt0[e]
      && Ready(edgeAt[e], vAt) && EndsIn(edgeAt[e], vs) && FateOf(edgeAt[e], vAt, box) == FateOf(edgeAt0[e], vAt0, box)
  {
    var e := E0[i - 1];
    assert E0 == E0[..i - 1] + [e] + E0[i..];
    DistinctMiddle(E0[..i - 1], [e], E0[i..]);
    FateOfKept(edgeAt0[e], vAt0, vs0, vAt, vs, box);
  }

  /** The step of clipEdges on `E0[i - 1]`: finishing that edge, and splicing it out when it is dropped. */
  lemma ClipStep(E0: seq<nat>, edgeAt0: map<nat, EdgeState<nat>>, vAt0: map<nat, Pt>, vs0: seq<nat>, cells0: seq<CellState>,
                 box: Bounds, i: nat, edges: seq<nat>, edgeAt: map<nat, EdgeState<nat>>, vAt: map<nat, Pt>, vs: seq<nat>,
                 cells: seq<CellState>, keep: bool, edges': seq<nat>, edgeAt': map<nat, EdgeState<nat>>, vAt': map<nat, Pt>,
                 vs': seq<nat>, cells': seq<CellState>)
    requires 0 < i <= |E0| && Listed(E0, edgeAt0, vAt0, vs0)
    requires ClipsDone(E0, edgeAt0, vAt0, vs0, cells0, box, i, edges, edgeAt, vAt, vs, cells)
    requires Keeps(vAt, vs, vAt', vs') && Marked(cells, cells')
    requires var e := E0[i - 1]; var f := FateOf(edgeAt0[e], vAt0, box);
      (keep <==> f.Some?) && e in edgeAt' && edgeAt' == edgeAt[e := edgeAt'[e]] && Settled(edgeAt'[e], edgeAt0[e], f, vAt', vs')
    requires i - 1 < |edges| && edges' == if keep then edges else edges[..i - 1] + edges[i..]
    ensures ClipsDone(E0, edgeAt0, vAt0, vs0, cells0, box, i - 1, edges', edgeAt', vAt', vs', cells')
  {
    var e := E0[i - 1];
    KeepsTrans(vAt0, vs0, vAt, vs, vAt', vs');
    MarkedTrans(cells0, cells, cells');
    SplitAt(E0, i - 1);
    ClipStepSettled(E0, edgeAt0, vAt0, box, i, edgeAt, vAt, vs, edgeAt', vAt', vs');
    ClipStepEdges(E0, edgeAt0, vAt0, box, i, edges, keep, edges');
  }

  /** `s` is its part before `k`, its element at `k` and its part after. */
  lemma SplitAt(s: seq<nat>, k: nat)
    requires k < |s|
    ensures s == s[..k] + [s[k]] + s[k + 1..] && s[k..] == [s[k]] + s[k + 1..] && s[..k + 1] == s[..k] + [s[k]]
  {
  }

  /** The finished edges stay settled through the step on `E0[i - 1]`, which settles that one, and the other edges are untouched. */
  lemma ClipStepSettled(E0: seq<nat>, edgeAt0: map<nat, EdgeState<nat>>, vAt0: map<nat, Pt>, box: Bounds, i: nat,
                        edgeAt: map<nat, EdgeState<nat>>, vAt: map<nat, Pt>, vs: seq<nat>,
                        edgeAt': map<nat, EdgeState<nat>>, vAt': map<nat, Pt>, vs': seq<nat>)
    requires 0 < i <= |E0| && Distinct(E0) && forall e :: e in E0 ==> (e in edgeAt0 && Ready(edgeAt0[e], vAt0))
    requires E0 == E0[..i - 1] + [E0[i - 1]] + E0[i..] && E0[i - 1..] == [E0[i - 1]] + E0[i..]
    requires edgeAt.Keys == edgeAt0.Keys && forall e :: e in edgeAt0 && e !in E0[i..] ==> edgeAt[e] == edgeAt0[e]
    requires forall e :: e in E0[i..] ==> Settled(edgeAt[e], edgeAt0[e], FateOf(edgeAt0[e], vAt0, box), vAt, vs)
    requires Keeps(vAt, vs, vAt', vs')
    requires var e := E0[i - 1];
      e in edgeAt' && edgeAt' == edgeAt[e := edgeAt'[e]] && Settled(edgeAt'[e], edgeAt0[e], FateOf(edgeAt0[e], vAt0, box), vAt', vs')
    ensures edgeAt'.Keys == edgeAt0.Keys && forall e :: e in edgeAt0 && e !in E0[i - 1..] ==> edgeAt'[e] == edgeAt0[e]
    ensures forall e :: e in E0[i - 1..] ==> Settled(edgeAt'[e], edgeAt0[e], FateOf(edgeAt0[e], vAt0, box), vAt', vs')
  {
    var e := E0[i - 1];
    DistinctMiddle(E0[..i - 1], [e], E0[i..]);
    forall x | x in E0[i - 1..]
      ensures Settled(edgeAt'[x], edgeAt0[x], FateOf(edgeAt0[x], vAt0, box), vAt', vs')
    {
      if x != e {
        SettledKept(edgeAt[x], edgeAt0[x], FateOf(edgeAt0[x], vAt0, box), vAt, vs, vAt', vs');
      }
    }
  }

  /** The list after the step on `E0[i - 1]`: that edge is kept in place or spliced out. */
  lemma ClipStepEdges(E0: seq<nat>, edgeAt0: map<nat, EdgeState<nat>>, vAt0: map<nat, Pt>, box: Bounds, i: nat,
                      edges: seq<nat>, keep: bool, edges': seq<nat>)
    requires 0 < i <= |E0| && forall e :: e in E0 ==> (e in edgeAt0 && Ready(edgeAt0[e], vAt0))
    requires E0[i - 1..] == [E0[i - 1]] + E0[i..] && E0[..i] == E0[..i - 1] + [E0[i - 1]]
    requires edges == E0[..i] + Survivors(E0[i..], edgeAt0, vAt0, box)
    requires keep <==> FateOf(edgeAt0[E0[i - 1]], vAt0, box).Some?
    requires i - 1 < |edges| && edges' == if keep then edges else edges[..i - 1] + edges[i..]
    ensures edges' == E0[..i - 1] + Survivors(E0[i - 1..], edgeAt0, vAt0, box)
  {
    var rest := Survivors(E0[i..], edgeAt0, vAt0, box);
    assert E0[i - 1..][1..] == E0[i..];
    assert edges == E0[..i - 1] + ([E0[i - 1]] + rest);
    if !keep {
      assert edges[..i - 1] == E0[..i - 1];
      assert edges[i..] == rest;
    }
  }

  /** Every edge clipEdges keeps lies in the box and is not point-like: both ends set, in the box, and apart. */
  lemma SurvivorsInBox(E0: seq<nat>, edgeAt0: map<nat, EdgeState<nat>>, vAt0: map<nat, Pt>, box: Bounds,
                       edgeAt: map<nat, EdgeState<nat>>, vAt: map<nat, Pt>, vs: seq<nat>)
    requires forall e :: e in E0 ==> (e in edgeAt0 && Ready(edgeAt0[e], vAt0))
    requires forall e :: e in E0 ==> (e in edgeAt && Settled(edgeAt[e], edgeAt0[e], FateOf(edgeAt0[e], vAt0, box), vAt, vs))
    ensures forall e :: e in Survivors(E0, edgeAt0, vAt0, box) ==>
      (e in edgeAt && edgeAt[e].va.Some? && edgeAt[e].vb.Some?
       && edgeAt[e].va.value in vAt && edgeAt[e].vb.value in vAt
       && InBox(vAt[edgeAt[e].va.value], box) && InBox(vAt[edgeAt[e].vb.value], box)
       && !PointLike(vAt[edgeAt[e].va.value], vAt[edgeAt[e].vb.value]))
  {
    forall e | e in Survivors(E0, edgeAt0, vAt0, box)
      ensures edgeAt[e].va.Some? && edgeAt[e].vb.Some? && edgeAt[e].va.value in vAt && edgeAt[e].vb.value in vAt
      ensures InBox(vAt[edgeAt[e].va.value], box) && InBox(vAt[edgeAt[e].vb.value], box)
      ensures !PointLike(vAt[edgeAt[e].va.value], vAt[edgeAt[e].vb.value])
    {
      SettledInBox(edgeAt[e], edgeAt0[e], vAt0, vAt, vs, box);
    }
  }

  /**
   * After clipEdges every kept edge lies in the box, is not point-like and, when its
   * sites' bisector held its ends before, still lies on that bisector.
   */
  lemma SettledInBox(es1: EdgeState<nat>, es0: EdgeState<nat>, vAt0: map<nat, Pt>, vAt: map<nat, Pt>, vs: seq<nat>, box: Bounds)
    requires Ready(es0, vAt0) && Settled(es1, es0, FateOf(es0, vAt0, box), vAt, vs) && es1.va.Some?
    ensures es1.vb.Some? && es1.va.value in vAt && es1.vb.value in vAt
    ensures var a, b := vAt[es1.va.value], vAt[es1.vb.value];
      InBox(a, box) && InBox(b, box) && !PointLike(a, b)
    ensures var l, r := es0.left.value, es0.right.value;
      (es0.va.Some? ==> Equidistant(vAt0[es0.va.value], l, r)) && (es0.vb.Some? ==> Equidistant(vAt0[es0.vb.value], l, r)) ==>
        Equidistant(vAt[es1.va.value], l, r) && Equidistant(vAt[es1.vb.value], l, r)
  {
    var l, r, a, b := es0.left.value, es0.right.value, Located(vAt0, es0.va), Located(vAt0, es0.vb);
    FateInBox(l, r, a, b, box);
    if (a.Some? ==> Equidistant(a.value, l, r)) && (b.Some? ==> Equidistant(b.value, l, r)) {
      FateOnBisector(l, r, a, b, box);
    }
  }

  // ---------------------------------------------------------------------------
  // closeCells

  /** The vertex where the half-edge `h` starts or ends, by the lookup `at` (getStartpoint or getEndpoint) over `edgeAt`. */
  function EndId(at: (HalfEdge, EdgeState<nat>) -> Option<nat>, edgeAt: map<nat, EdgeState<nat>>, h: HalfEdge): Option<nat>
  {
    if h.edge in edgeAt then at(h, edgeAt[h.edge]) else None
  }

  /** The index after `k` in a ring of `n` half-edges. */
  function NextIn(k: nat, n: nat): (m: nat)
    requires k < n
    ensures m < n
  {
    if k + 1 < n then k + 1 else 0
  }

  /**
   * What closeCells lays along the border between a half-edge ending at `a` and the next
   * one starting at `z`: nothing when they meet within ε, the border points of the walk
   * otherwise; none when it throws (a missing point, or a walk that never arrives).
   */
  function GapFill(a: Option<Pt>, z: Option<Pt>, box: Bounds): Option<seq<Pt>>
  {
    if a.None? || z.None? then None
    else if PointLike(a.value, z.value) then Some([])
    else Gap(a.value, z.value, box)
  }

  /** The lookups getStartpoint and getEndpoint, with the positions they are read through. */
  datatype Ends = Ends(startOf: (HalfEdge, EdgeState<nat>) -> Option<nat>, endOf: (HalfEdge, EdgeState<nat>) -> Option<nat>,
                       edgeAt: map<nat, EdgeState<nat>>, vAt: map<nat, Pt>)

  /** The gap closeCells fills after the `k`-th of the ordered half-edges `hs`, up to the start of the next one. */
  function FillAt(ends: Ends, hs: seq<HalfEdge>, k: nat, box: Bounds): Option<seq<Pt>>
    requires k < |hs|
  {
    GapFill(Located(ends.vAt, EndId(ends.endOf, ends.edgeAt, hs[k])),
            Located(ends.vAt, EndId(ends.startOf, ends.edgeAt, hs[NextIn(k, |hs|)])), box)
  }

  /** Every gap of the ring `hs` can be filled: closeCells does not throw on it. */
  predicate Closable(ends: Ends, hs: seq<HalfEdge>, box: Bounds)
  {
    forall k :: 0 <= k < |hs| ==> FillAt(ends, hs, k, box).Some?
  }

  /**
   * The half-edge `h` is a border piece of the cell of `site`: its edge runs along the
   * box from the vertex `a` to the vertex `b`, placed at `p`, with only `site` beside it.
   */
  predicate BorderPiece(h: HalfEdge, a: nat, b: nat, p: Pt, site: Site, edgeAt: map<nat, EdgeState<nat>>, vAt: map<nat, Pt>,
                        angle: (Site, Option<Site>, Option<Pt>, Option<Pt>) -> real)
  {
    h.site == site && h.other == None && h.edge in edgeAt
    && edgeAt[h.edge] == EdgeState(Some(site), None, Some(a), Some(b))
    && a in vAt && b in vAt && vAt[b] == p
    && h.angle == angle(site, None, Some(vAt[a]), Some(p))
  }

  /** The half-edges `run` are border pieces through the vertices `vids` (its first the start), placed at `ps`. */
  predicate BorderRun(run: seq<HalfEdge>, vids: seq<nat>, ps: seq<Pt>, site: Site, edgeAt: map<nat, EdgeState<nat>>,
                      vAt: map<nat, Pt>, angle: (Site, Option<Site>, Option<Pt>, Option<Pt>) -> real)
  {
    |vids| == |run| + 1 && |ps| == |run|
    && forall j :: 0 <= j < |run| ==> BorderPiece(run[j], vids[j], vids[j + 1], ps[j], site, edgeAt, vAt, angle)
  }

  /** `hs` with the run `runs[k]` after its `k`-th half-edge. */
  function Weave(hs: seq<HalfEdge>, runs: seq<seq<HalfEdge>>): (r: seq<HalfEdge>)
    requires |runs| == |hs|
    ensures hs != [] ==> r != [] && r[0] == hs[0]
  {
    if hs == [] then [] else [hs[0]] + runs[0] + Weave(hs[1..], runs[1..])
  }

  /** Weaving one more half-edge and its run appends both. */
  lemma {:induction false} WeaveSnoc(hs: seq<HalfEdge>, runs: seq<seq<HalfEdge>>, h: HalfEdge, run: seq<HalfEdge>)
    requires |runs| == |hs|
    ensures Weave(hs + [h], runs + [run]) == Weave(hs, runs) + [h] + run
  {
    if hs == [] {
      assert Weave([h], [run]) == [h] + run + Weave([], []);
    } else {
      assert (hs + [h])[1..] == hs[1..] + [h];
      assert (runs + [run])[1..] == runs[1..] + [run];
      WeaveSnoc(hs[1..], runs[1..], h, run);
    }
  }

  /**
   * The first `|runs|` half-edges of the ring `hs` are followed as closeCells follows
   * them: after `hs[m]` come the border pieces `runs[m]` (placed by `edgeAt` and `vAt`),
   * from the vertex where `hs[m]` ends through the points of its gap (read through `ends`).
   */
  predicate RunsFrom(ends: Ends, hs: seq<HalfEdge>, runs: seq<seq<HalfEdge>>, vidss: seq<seq<nat>>, site: Site, box: Bounds,
                     angle: (Site, Option<Site>, Option<Pt>, Option<Pt>) -> real, edgeAt: map<nat, EdgeState<nat>>, vAt: map<nat, Pt>)
  {
    |runs| <= |hs| && |vidss| == |runs|
    && forall m :: 0 <= m < |runs| ==>
         (FillAt(ends, hs, m, box).Some? && |vidss[m]| > 0 && EndId(ends.endOf, ends.edgeAt, hs[m]) == Some(vidss[m][0])
          && BorderRun(runs[m], vidss[m], FillAt(ends, hs, m, box).value, site, edgeAt, vAt, angle))
  }

  /**
   * The cell of `site` with the ordered half-edges `hs` is closed as closeCells closes
   * it: after each half-edge `hs[k]` come the border pieces `runs[k]`, from the vertex
   * where `hs[k]` ends through the points of its gap.
   */
  predicate ClosedAs(ends: Ends, hs: seq<HalfEdge>, runs: seq<seq<HalfEdge>>, vidss: seq<seq<nat>>, site: Site, box: Bounds,
                     angle: (Site, Option<Site>, Option<Pt>, Option<Pt>) -> real)
  {
    |runs| == |hs| && RunsFrom(ends, hs, runs, vidss, site, box, angle, ends.edgeAt, ends.vAt)
  }

  /** Where the pieces of a run end: each starts where the previous one ended, and the last ends at the walk's target. */
  lemma RunCloses(run: seq<HalfEdge>, vids: seq<nat>, va: Pt, vz: Pt, site: Site, edgeAt: map<nat, EdgeState<nat>>,
                  vAt: map<nat, Pt>, angle: (Site, Option<Site>, Option<Pt>, Option<Pt>) -> real, box: Bounds)
    requires GapFill(Some(va), Some(vz), box).Some? && vids != [] && vids[0] in vAt && vAt[vids[0]] == va
    requires BorderRun(run, vids, GapFill(Some(va), Some(vz), box).value, site, edgeAt, vAt, angle)
    ensures forall j :: 0 <= j < |run| ==>
      (run[j].edge in edgeAt && edgeAt[run[j].edge].va == Some(vids[j]) && edgeAt[run[j].edge].vb == Some(vids[j + 1]))
    ensures forall j :: 0 <= j <= |run| ==> (vids[j] in vAt)
    ensures PointLike(vAt[vids[|run|]], vz)
    ensures forall j :: 0 < j <= |run| ==> OnBorder(vAt[vids[j]], box)
  {
    var ps := GapFill(Some(va), Some(vz), box).value;
    forall j | 0 <= j < |run|
      ensures run[j].edge in edgeAt && edgeAt[run[j].edge].va == Some(vids[j]) && edgeAt[run[j].edge].vb == Some(vids[j + 1])
    {
      assert BorderPiece(run[j], vids[j], vids[j + 1], ps[j], site, edgeAt, vAt, angle);
    }
    if PointLike(va, vz) {
      assert ps == [];
    } else {
      var k := EntrySide(va, box).value;
      assert ps == Walk(vz, box, k).value;
      WalkPoints(vz, box, k);
      forall j | 0 < j <= |run| ensures vids[j] in vAt && vAt[vids[j]] == ps[j - 1] {
        assert BorderPiece(run[j - 1], vids[j - 1], vids[j], ps[j - 1], site, edgeAt, vAt, angle);
      }
    }
  }

  /** The last point of a walk is within ε of its target, and every point lies on the border. */
  lemma WalkPoints(vz: Pt, box: Bounds, k: nat)
    requires k <= 6 && Walk(vz, box, k).Some?
    ensures var ps := Walk(vz, box, k).value;
      PointLike(ps[|ps| - 1], vz) && forall j :: 0 <= j < |ps| ==> OnBorder(ps[j], box)
  {
    var ps := Walk(vz, box, k).value;
    WalkEndsAtTarget(vz, box, k);
    forall j | 0 <= j < |ps| ensures OnBorder(ps[j], box) {
      assert OnSideLine(ps[j], Border.SideOf(k + j), box);
    }
  }

  /** The point `p` lies on the line of one of the box's four sides. */
  predicate OnBorder(p: Pt, box: Bounds)
  {
    p.x == box.left || p.y == box.bottom || p.x == box.right || p.y == box.top
  }

  /**
   * A cell closed by closeCells is a closed ring: after each half-edge its border pieces
   * start where it ends, chain end to start, run along the box, and the last of them (or
   * the half-edge itself, when there are none) ends within ε of where the next half-edge
   * starts.
   */
  lemma RingClosed(ends: Ends, hs: seq<HalfEdge>, runs: seq<seq<HalfEdge>>, vidss: seq<seq<nat>>, site: Site, box: Bounds,
                   angle: (Site, Option<Site>, Option<Pt>, Option<Pt>) -> real, k: nat)
    requires ClosedAs(ends, hs, runs, vidss, site, box, angle) && k < |hs|
    ensures var a, z := EndId(ends.endOf, ends.edgeAt, hs[k]), EndId(ends.startOf, ends.edgeAt, hs[NextIn(k, |hs|)]);
      a.Some? && z.Some? && a.value in ends.vAt && z.value in ends.vAt
      && |vidss[k]| == |runs[k]| + 1 && vidss[k][0] == a.value
      && (forall j :: 0 <= j < |runs[k]| ==>
            (runs[k][j].edge in ends.edgeAt && ends.edgeAt[runs[k][j].edge].va == Some(vidss[k][j])
             && ends.edgeAt[runs[k][j].edge].vb == Some(vidss[k][j + 1])))
      && (forall j :: 0 <= j <= |runs[k]| ==> (vidss[k][j] in ends.vAt))
      && (forall j :: 0 < j <= |runs[k]| ==> OnBorder(ends.vAt[vidss[k][j]], box))
      && PointLike(ends.vAt[vidss[k][|runs[k]|]], ends.vAt[z.value])
  {
    var a, z := Located(ends.vAt, EndId(ends.endOf, ends.edgeAt, hs[k])), Located(ends.vAt, EndId(ends.startOf, ends.edgeAt, hs[NextIn(k, |hs|)]));
    assert FillAt(ends, hs, k, box) == GapFill(a, z, box);
    RunCloses(runs[k], vidss[k], a.value, z.value, site, ends.edgeAt, ends.vAt, angle, box);
  }

  /** getStartpoint or getEndpoint: the lookup gives one of the edge's two ends. */
  ghost predicate OneOfEnds(at: (HalfEdge, EdgeState<nat>) -> Option<nat>)
  {
    forall h, es :: at(h, es) == es.va || at(h, es) == es.vb
  }

  /** The edge `e` can be referred to by a cell: known, ending at vertices of `vs`, and never handed out by the pool. */
  predicate Referable(e: nat, junk: seq<nat>, count: nat, edgeAt: map<nat, EdgeState<nat>>, vs: seq<nat>)
  {
    e < count && e !in junk && e in edgeAt && EndsIn(edgeAt[e], vs)
  }

  /** The edge pool hands out no edge a cell refers to: pooled ids are distinct and below the count, and every referred edge is `Referable`. */
  predicate EdgesFresh(junk: seq<nat>, count: nat, cells: seq<CellState>, edgeAt: map<nat, EdgeState<nat>>, vs: seq<nat>)
  {
    Distinct(junk) && (forall x :: x in junk ==> x < count)
    && forall i, h :: 0 <= i < |cells| && h in cells[i].halfEdges ==> Referable(h.edge, junk, count, edgeAt, vs)
  }

  /** `edgeAt` still holds, unchanged, every edge of `edgeAt0` that the pool (`junk0`, `count0`) could not hand out. */
  predicate Untouched(edgeAt0: map<nat, EdgeState<nat>>, junk0: seq<nat>, count0: nat, edgeAt: map<nat, EdgeState<nat>>)
  {
    forall x :: x in edgeAt0 && x < count0 && x !in junk0 ==> x in edgeAt && edgeAt[x] == edgeAt0[x]
  }

  /** Taking an edge from a pool that only shrinks keeps untouched edges untouched. */
  lemma UntouchedTrans(e0: map<nat, EdgeState<nat>>, junk0: seq<nat>, count0: nat, e1: map<nat, EdgeState<nat>>,
                       junk1: seq<nat>, count1: nat, e2: map<nat, EdgeState<nat>>)
    requires Untouched(e0, junk0, count0, e1) && Untouched(e1, junk1, count1, e2)
    requires count0 <= count1 && forall x :: x in junk1 ==> x in junk0
    ensures Untouched(e0, junk0, count0, e2)
  {
  }

  /** `x` is in `a` spliced with `h` after position `m` exactly when it is `h` or in `a`. */
  lemma SpliceIn(a: seq<HalfEdge>, m: nat, h: HalfEdge)
    requires m <= |a|
    ensures forall x :: x in a[..m] + [h] + a[m..] <==> x == h || x in a
  {
    assert a == a[..m] + a[m..];
  }

  /**
   * createBorderEdge on a fresh pool: the new edge `e` is none a cell refers to, so the
   * referred edges are untouched; once its half-edge is added to a cell and it ends at
   * listed vertices, the pool is fresh again.
   */
  lemma BorderEdgeFresh(junk: seq<nat>, count: nat, cells: seq<CellState>, edgeAt: map<nat, EdgeState<nat>>, vs: seq<nat>,
                        e: nat, junk': seq<nat>, count': nat, cells': seq<CellState>, edgeAt': map<nat, EdgeState<nat>>, vs': seq<nat>)
    requires EdgesFresh(junk, count, cells, edgeAt, vs) && Took(junk, count, e, junk', count')
    requires |cells'| == |cells| && forall i, h :: 0 <= i < |cells'| && h in cells'[i].halfEdges ==> h in cells[i].halfEdges || h.edge == e
    requires e in edgeAt' && edgeAt' == edgeAt[e := edgeAt'[e]] && EndsIn(edgeAt'[e], vs') && forall v :: v in vs ==> v in vs'
    ensures EdgesFresh(junk', count', cells', edgeAt', vs') && Untouched(edgeAt, junk, count, edgeAt')
    ensures count <= count' && forall x :: x in junk' ==> x in junk
  {
    TookFresh(junk, count, [], e, junk', count');
    forall x | x in junk' ensures x in junk {
      if junk != [] {
        assert junk == junk' + [junk[|junk| - 1]];
      }
    }
  }

  /** The points `ps` put in front of the walk `o`, when there is one. */
  function Prefixed(o: Option<seq<Pt>>, ps: seq<Pt>): Option<seq<Pt>>
  {
    if o.None? then None else Some(ps + o.value)
  }

  /**
   * One case of the fall-through: when the walk from side `k` is the points `ps` followed
   * by the walk from case `j`, and case `j` neither reaches `vz` nor is the last, it is
   * `ps` and the segment end of case `j` followed by the walk from case `j + 1`.
   */
  lemma WalkStep(vz: Pt, box: Bounds, k: nat, j: nat, ps: seq<Pt>)
    requires k <= j < 6 && Walk(vz, box, k) == Prefixed(Walk(vz, box, j), ps) && !Reaches(Border.SideOf(j), vz, box)
    ensures Walk(vz, box, k) == Prefixed(Walk(vz, box, j + 1), ps + [SegmentEnd(Border.SideOf(j), vz, box)])
  {
    match Walk(vz, box, j + 1)
    case None =>
    case Some(rest) =>
      assert ps + ([Corner(Border.SideOf(j), box)] + rest) == ps + [Corner(Border.SideOf(j), box)] + rest;
  }

  /**
   * The case that ends the fall-through: when case `j` reaches `vz`, the walk from side
   * `k` is `ps` and the segment end of case `j`; when the last case does not, there is no walk.
   */
  lemma WalkLast(vz: Pt, box: Bounds, k: nat, j: nat, ps: seq<Pt>)
    requires k <= j <= 6 && Walk(vz, box, k) == Prefixed(Walk(vz, box, j), ps)
    ensures Reaches(Border.SideOf(j), vz, box) ==> Walk(vz, box, k) == Some(ps + [SegmentEnd(Border.SideOf(j), vz, box)])
    ensures j == 6 && !Reaches(Border.SideOf(j), vz, box) ==> Walk(vz, box, k) == None
  {
  }

  /** Border pieces stay border pieces while their edges are untouched and their vertices keep their positions. */
  lemma BorderRunKept(run: seq<HalfEdge>, vids: seq<nat>, ps: seq<Pt>, site: Site, angle: (Site, Option<Site>, Option<Pt>, Option<Pt>) -> real,
                      edgeAt0: map<nat, EdgeState<nat>>, vAt0: map<nat, Pt>, vs0: seq<nat>, junk0: seq<nat>, count0: nat,
                      edgeAt: map<nat, EdgeState<nat>>, vAt: map<nat, Pt>, vs: seq<nat>)
    requires BorderRun(run, vids, ps, site, edgeAt0, vAt0, angle)
    requires forall j :: 0 <= j < |run| ==> Referable(run[j].edge, junk0, count0, edgeAt0, vs0)
    requires Untouched(edgeAt0, junk0, count0, edgeAt) && Keeps(vAt0, vs0, vAt, vs)
    ensures BorderRun(run, vids, ps, site, edgeAt, vAt, angle)
  {
    forall j | 0 <= j < |run| ensures BorderPiece(run[j], vids[j], vids[j + 1], ps[j], site, edgeAt, vAt, angle) {
      assert BorderPiece(run[j], vids[j], vids[j + 1], ps[j], site, edgeAt0, vAt0, angle);
      assert Referable(run[j].edge, junk0, count0, edgeAt0, vs0);
    }
  }

  /** Splicing `h` in after a run spliced in after position `m` of `a`. */
  lemma SpliceAfter(a: seq<HalfEdge>, m: nat, run: seq<HalfEdge>, h: HalfEdge)
    requires m < |a|
    ensures var x := a[..m + 1] + run + a[m + 1..];
      m + |run| < |x| && x[..m + |run| + 1] + [h] + x[m + |run| + 1..] == a[..m + 1] + (run + [h]) + a[m + 1..]
  {
    var x := a[..m + 1] + run + a[m + 1..];
    assert x[..m + |run| + 1] == a[..m + 1] + run;
    assert x[m + |run| + 1..] == a[m + 1..];
  }

  /** The parts of the engine's state the wrap-up grows: cells, vertices, edges and their pools. */
  datatype Frame = Frame(cells: seq<CellState>, vAt: map<nat, Pt>, vs: seq<nat>, edgeAt: map<nat, EdgeState<nat>>,
                         junk: seq<nat>, count: nat, edges: seq<nat>)

  /** From `f0` to `f1` the wrap-up only added: listed vertices keep their positions, untouched edges stay, the pool only shrank, edges were only appended. */
  predicate Grows(f0: Frame, f1: Frame)
  {
    Keeps(f0.vAt, f0.vs, f1.vAt, f1.vs) && Untouched(f0.edgeAt, f0.junk, f0.count, f1.edgeAt)
    && f0.count <= f1.count && (forall x :: x in f1.junk ==> x in f0.junk) && f0.edges <= f1.edges
  }

  /** Growing is transitive. */
  lemma GrowsTrans(f0: Frame, f1: Frame, f2: Frame)
    requires Grows(f0, f1) && Grows(f1, f2)
    ensures Grows(f0, f2)
  {
    KeepsTrans(f0.vAt, f0.vs, f1.vAt, f1.vs, f2.vAt, f2.vs);
    UntouchedTrans(f0.edgeAt, f0.junk, f0.count, f1.edgeAt, f1.junk, f1.count, f2.edgeAt);
  }

  /** A referable edge keeps its ends, and their positions, while the state only grows. */
  lemma EndKept(at: (HalfEdge, EdgeState<nat>) -> Option<nat>, h: HalfEdge, f0: Frame, f1: Frame)
    requires OneOfEnds(at) && Referable(h.edge, f0.junk, f0.count, f0.edgeAt, f0.vs) && Grows(f0, f1)
    requires forall v :: v in f0.vs ==> v in f0.vAt
    ensures EndId(at, f1.edgeAt, h) == EndId(at, f0.edgeAt, h)
    ensures Located(f1.vAt, EndId(at, f1.edgeAt, h)) == Located(f0.vAt, EndId(at, f0.edgeAt, h))
    ensures EndId(at, f1.edgeAt, h).Some? ==> EndId(at, f1.edgeAt, h).value in f1.vs
  {
    var es := f0.edgeAt[h.edge];
    assert at(h, es) == es.va || at(h, es) == es.vb;
  }

  /** The gaps of a ring of referable half-edges stay the same while the state only grows. */
  lemma FillAtKept(st: (HalfEdge, EdgeState<nat>) -> Option<nat>, en: (HalfEdge, EdgeState<nat>) -> Option<nat>,
                   hs: seq<HalfEdge>, k: nat, box: Bounds, f0: Frame, f1: Frame)
    requires OneOfEnds(st) && OneOfEnds(en) && k < |hs| && Grows(f0, f1) && forall v :: v in f0.vs ==> v in f0.vAt
    requires Referable(hs[k].edge, f0.junk, f0.count, f0.edgeAt, f0.vs)
    requires Referable(hs[NextIn(k, |hs|)].edge, f0.junk, f0.count, f0.edgeAt, f0.vs)
    ensures FillAt(Ends(st, en, f1.edgeAt, f1.vAt), hs, k, box) == FillAt(Ends(st, en, f0.edgeAt, f0.vAt), hs, k, box)
    ensures EndId(en, f1.edgeAt, hs[k]) == EndId(en, f0.edgeAt, hs[k])
    ensures EndId(en, f1.edgeAt, hs[k]).Some? ==> EndId(en, f1.edgeAt, hs[k]).value in f1.vs
  {
    EndKept(en, hs[k], f0, f1);
    EndKept(st, hs[NextIn(k, |hs|)], f0, f1);
  }

  /** Every half-edge of `hs` and of its runs is in the weave. */
  lemma {:induction false} WeaveContains(hs: seq<HalfEdge>, runs: seq<seq<HalfEdge>>)
    requires |runs| == |hs|
    ensures forall m :: 0 <= m < |hs| ==> hs[m] in Weave(hs, runs)
    ensures forall m, j :: 0 <= m < |hs| && 0 <= j < |runs[m]| ==> runs[m][j] in Weave(hs, runs)
  {
    if hs != [] {
      WeaveContains(hs[1..], runs[1..]);
      var w := Weave(hs, runs);
      assert w == [hs[0]] + runs[0] + Weave(hs[1..], runs[1..]);
      forall m | 0 < m < |hs| ensures hs[m] in w {
        assert hs[m] == hs[1..][m - 1];
      }
      forall m, j | 0 <= m < |hs| && 0 <= j < |runs[m]| ensures runs[m][j] in w {
        if m == 0 {
          assert runs[0][j] == w[1 + j];
        } else {
          assert runs[m] == runs[1..][m - 1];
        }
      }
    }
  }

  /** A closed cell stays closed, with the same runs, while the state only grows. */
  lemma ClosedAsKept(st: (HalfEdge, EdgeState<nat>) -> Option<nat>, en: (HalfEdge, EdgeState<nat>) -> Option<nat>,
                     hs: seq<HalfEdge>, runs: seq<seq<HalfEdge>>, vidss: seq<seq<nat>>, site: Site, box: Bounds,
                     angle: (Site, Option<Site>, Option<Pt>, Option<Pt>) -> real, f0: Frame, f1: Frame)
    requires OneOfEnds(st) && OneOfEnds(en) && Grows(f0, f1) && forall v :: v in f0.vs ==> v in f0.vAt
    requires ClosedAs(Ends(st, en, f0.edgeAt, f0.vAt), hs, runs, vidss, site, box, angle)
    requires forall h :: h in Weave(hs, runs) ==> Referable(h.edge, f0.junk, f0.count, f0.edgeAt, f0.vs)
    ensures ClosedAs(Ends(st, en, f1.edgeAt, f1.vAt), hs, runs, vidss, site, box, angle)
  {
    WeaveContains(hs, runs);
    var e0, e1 := Ends(st, en, f0.edgeAt, f0.vAt), Ends(st, en, f1.edgeAt, f1.vAt);
    forall k | 0 <= k < |hs|
      ensures FillAt(e1, hs, k, box).Some? && |vidss[k]| > 0 && EndId(en, f1.edgeAt, hs[k]) == Some(vidss[k][0])
      ensures BorderRun(runs[k], vidss[k], FillAt(e1, hs, k, box).value, site, f1.edgeAt, f1.vAt, angle)
    {
      FillAtKept(st, en, hs, k, box, f0, f1);
      BorderRunKept(runs[k], vidss[k], FillAt(e0, hs, k, box).value, site, angle, f0.edgeAt, f0.vAt, f0.vs, f0.junk, f0.count,
                    f1.edgeAt, f1.vAt, f1.vs);
    }
  }

  /** The runs laid so far stay in place while the state only grows. */
  lemma RunsFromKept(ends: Ends, hs: seq<HalfEdge>, runs: seq<seq<HalfEdge>>, vidss: seq<seq<nat>>, site: Site, box: Bounds,
                     angle: (Site, Option<Site>, Option<Pt>, Option<Pt>) -> real, f0: Frame, f1: Frame)
    requires RunsFrom(ends, hs, runs, vidss, site, box, angle, f0.edgeAt, f0.vAt) && Grows(f0, f1)
    requires forall m, j :: 0 <= m < |runs| && 0 <= j < |runs[m]| ==> Referable(runs[m][j].edge, f0.junk, f0.count, f0.edgeAt, f0.vs)
    ensures RunsFrom(ends, hs, runs, vidss, site, box, angle, f1.edgeAt, f1.vAt)
  {
    forall m | 0 <= m < |runs|
      ensures BorderRun(runs[m], vidss[m], FillAt(ends, hs, m, box).value, site, f1.edgeAt, f1.vAt, angle)
    {
      BorderRunKept(runs[m], vidss[m], FillAt(ends, hs, m, box).value, site, angle, f0.edgeAt, f0.vAt, f0.vs, f0.junk, f0.count,
                    f1.edgeAt, f1.vAt, f1.vs);
    }
  }

  /**
   * The step of closeCells on `hs[k]` in the list woven so far: it sits at the end of the
   * weave, the next half-edge of the ring at the index after it (wrapping to the first),
   * and splicing its run in after it weaves one more.
   */
  lemma WeaveStep(hs: seq<HalfEdge>, k: nat, runs: seq<seq<HalfEdge>>, run: seq<HalfEdge>)
    requires k < |hs| && |runs| == k
    ensures var w, x := Weave(hs[..k], runs), Weave(hs[..k], runs) + hs[k..];
      |w| < |x| && x[|w|] == hs[k] && x[(|w| + 1) % |x|] == hs[NextIn(k, |hs|)]
      && x[..|w| + 1] + run + x[|w| + 1..] == Weave(hs[..k + 1], runs + [run]) + hs[k + 1..]
      && |Weave(hs[..k + 1], runs + [run])| == |w| + 1 + |run|
  {
    var w := Weave(hs[..k], runs);
    var x := w + hs[k..];
    assert hs[..k + 1] == hs[..k] + [hs[k]];
    WeaveSnoc(hs[..k], runs, hs[k], run);
    SpliceWoven(w, hs, k, run);
    ModWrap(|w| + 1, |x|);
    if k + 1 == |hs| && k > 0 {
      assert w[0] == hs[..k][0] == hs[0];
    }
  }

  /** The remainder of `m` by `n`, for `0 < m <= n`: `m` itself, or 0 at `n`. */
  lemma ModWrap(m: nat, n: nat)
    requires 0 < m <= n
    ensures m % n == if m < n then m else 0
  {
  }

  /** Splicing `run` in after the `k`-th half-edge, which follows the weave `w`. */
  lemma SpliceWoven(w: seq<HalfEdge>, hs: seq<HalfEdge>, k: nat, run: seq<HalfEdge>)
    requires k < |hs|
    ensures var x := w + hs[k..];
      |w| < |x| && x[|w|] == hs[k] && (k + 1 < |hs| ==> x[|w| + 1] == hs[k + 1])
      && x[..|w| + 1] + run + x[|w| + 1..] == w + [hs[k]] + run + hs[k + 1..]
  {
    var x := w + hs[k..];
    assert x[..|w| + 1] == w + [hs[k]];
    assert x[|w| + 1..] == hs[k + 1..];
  }

  /** One more run laid after `hs[k]`, `k` the number laid so far. */
  lemma RunsFromSnoc(ends: Ends, hs: seq<HalfEdge>, runs: seq<seq<HalfEdge>>, vidss: seq<seq<nat>>, site: Site, box: Bounds,
                     angle: (Site, Option<Site>, Option<Pt>, Option<Pt>) -> real, edgeAt: map<nat, EdgeState<nat>>, vAt: map<nat, Pt>,
                     run: seq<HalfEdge>, vids: seq<nat>)
    requires RunsFrom(ends, hs, runs, vidss, site, box, angle, edgeAt, vAt) && |runs| < |hs|
    requires FillAt(ends, hs, |runs|, box).Some? && |vids| > 0 && EndId(ends.endOf, ends.edgeAt, hs[|runs|]) == Some(vids[0])
    requires BorderRun(run, vids, FillAt(ends, hs, |runs|, box).value, site, edgeAt, vAt, angle)
    ensures RunsFrom(ends, hs, runs + [run], vidss + [vids], site, box, angle, edgeAt, vAt)
  {
    var runs', vidss' := runs + [run], vidss + [vids];
    forall m | 0 <= m < |runs'|
      ensures FillAt(ends, hs, m, box).Some? && |vidss'[m]| > 0 && EndId(ends.endOf, ends.edgeAt, hs[m]) == Some(vidss'[m][0])
      ensures BorderRun(runs'[m], vidss'[m], FillAt(ends, hs, m, box).value, site, edgeAt, vAt, angle)
    {
      if m < |runs| {
        assert runs'[m] == runs[m] && vidss'[m] == vidss[m];
      }
    }
  }

  /**
   * The loop of closeCells on cell `i` of the frame `f0`, whose ordered half-edges are
   * `hs`, after its first `k` gaps, in the frame `f`: their runs woven in after them,
   * `iLeft` at `hs[k]`, and the state only grown.
   */
  predicate Closes(st: (HalfEdge, EdgeState<nat>) -> Option<nat>, en: (HalfEdge, EdgeState<nat>) -> Option<nat>,
                   angle: (Site, Option<Site>, Option<Pt>, Option<Pt>) -> real, f0: Frame, f: Frame, i: nat, hs: seq<HalfEdge>,
                   site: Site, box: Bounds, k: nat, iLeft: nat, runs: seq<seq<HalfEdge>>, vidss: seq<seq<nat>>)
  {
    k <= |hs| && |runs| == k && Grows(f0, f)
    && i < |f0.cells| && f0.cells[i].halfEdges == hs && f0.cells[i].site == site
    && (forall v :: v in f0.vs ==> v in f0.vAt)
    && (forall h :: h in hs ==> Referable(h.edge, f0.junk, f0.count, f0.edgeAt, f0.vs))
    && f.cells == f0.cells[i := f0.cells[i].(halfEdges := Weave(hs[..k], runs) + hs[k..])]
    && iLeft == |Weave(hs[..k], runs)|
    && RunsFrom(Ends(st, en, f0.edgeAt, f0.vAt), hs, runs, vidss, site, box, angle, f.edgeAt, f.vAt)
  }

  /**
   * One gap of the loop of closeCells: laying the run for the gap after `hs[k]` (from
   * the frame `f1` to `f2`) moves on to the next half-edge of the ring.
   */
  lemma CloseStep(st: (HalfEdge, EdgeState<nat>) -> Option<nat>, en: (HalfEdge, EdgeState<nat>) -> Option<nat>,
                  angle: (Site, Option<Site>, Option<Pt>, Option<Pt>) -> real, f0: Frame, f1: Frame, f2: Frame, i: nat,
                  hs: seq<HalfEdge>, site: Site, box: Bounds, k: nat, iLeft: nat, runs: seq<seq<HalfEdge>>, vidss: seq<seq<nat>>,
                  run: seq<HalfEdge>, vids: seq<nat>)
    requires Closes(st, en, angle, f0, f1, i, hs, site, box, k, iLeft, runs, vidss) && k < |hs|
    requires EdgesFresh(f1.junk, f1.count, f1.cells, f1.edgeAt, f1.vs) && Grows(f1, f2)
    requires FillAt(Ends(st, en, f0.edgeAt, f0.vAt), hs, k, box).Some? && |vids| > 0
    requires EndId(en, f0.edgeAt, hs[k]) == Some(vids[0])
    requires BorderRun(run, vids, FillAt(Ends(st, en, f0.edgeAt, f0.vAt), hs, k, box).value, site, f2.edgeAt, f2.vAt, angle)
    requires var x := f1.cells[i].halfEdges;
      f2.cells == f1.cells[i := f1.cells[i].(halfEdges := x[..iLeft + 1] + run + x[iLeft + 1..])]
    ensures Closes(st, en, angle, f0, f2, i, hs, site, box, k + 1, iLeft + 1 + |run|, runs + [run], vidss + [vids])
  {
    WovenCells(f0.cells, f1.cells, f2.cells, i, hs, k, iLeft, runs, run);
    GrowsTrans(f0, f1, f2);
    WovenReferable(f1, i, hs, k, runs);
    var ends := Ends(st, en, f0.edgeAt, f0.vAt);
    RunsFromKept(ends, hs, runs, vidss, site, box, angle, f1, f2);
    RunsFromSnoc(ends, hs, runs, vidss, site, box, angle, f2.edgeAt, f2.vAt, run, vids);
  }

  /** The cells after splicing the run for the gap after `hs[k]` into the weave so far. */
  lemma WovenCells(c0: seq<CellState>, c1: seq<CellState>, c2: seq<CellState>, i: nat, hs: seq<HalfEdge>, k: nat, iLeft: nat,
                   runs: seq<seq<HalfEdge>>, run: seq<HalfEdge>)
    requires i < |c0| && k < |hs| && |runs| == k && iLeft == |Weave(hs[..k], runs)|
    requires c1 == c0[i := c0[i].(halfEdges := Weave(hs[..k], runs) + hs[k..])]
    requires var x := c1[i].halfEdges; c2 == c1[i := c1[i].(halfEdges := x[..iLeft + 1] + run + x[iLeft + 1..])]
    ensures c2 == c0[i := c0[i].(halfEdges := Weave(hs[..k + 1], runs + [run]) + hs[k + 1..])]
    ensures iLeft + 1 + |run| == |Weave(hs[..k + 1], runs + [run])|
  {
    WeaveStep(hs, k, runs, run);
  }

  /** The runs woven into a cell of a frame whose edge pool is fresh can be referred to. */
  lemma WovenReferable(f: Frame, i: nat, hs: seq<HalfEdge>, k: nat, runs: seq<seq<HalfEdge>>)
    requires EdgesFresh(f.junk, f.count, f.cells, f.edgeAt, f.vs) && k <= |hs| && |runs| == k
    requires i < |f.cells| && f.cells[i].halfEdges == Weave(hs[..k], runs) + hs[k..]
    ensures forall m, j :: 0 <= m < |runs| && 0 <= j < |runs[m]| ==> Referable(runs[m][j].edge, f.junk, f.count, f.edgeAt, f.vs)
  {
    WeaveContains(hs[..k], runs);
    forall m, j | 0 <= m < |runs| && 0 <= j < |runs[m]|
      ensures Referable(runs[m][j].edge, f.junk, f.count, f.edgeAt, f.vs)
    {
      assert runs[m][j] in f.cells[i].halfEdges;
    }
  }

  /** The loop of closeCells starts on the ring `hs` of cell `i` with nothing laid. */
  lemma CloseStart(st: (HalfEdge, EdgeState<nat>) -> Option<nat>, en: (HalfEdge, EdgeState<nat>) -> Option<nat>,
                   angle: (Site, Option<Site>, Option<Pt>, Option<Pt>) -> real, f0: Frame, i: nat, box: Bounds)
    requires i < |f0.cells| && EdgesFresh(f0.junk, f0.count, f0.cells, f0.edgeAt, f0.vs) && forall v :: v in f0.vs ==> v in f0.vAt
    ensures Closes(st, en, angle, f0, f0, i, f0.cells[i].halfEdges, f0.cells[i].site, box, 0, 0, [], [])
  {
    var hs := f0.cells[i].halfEdges;
    assert Weave(hs[..0], []) + hs[0..] == hs;
    assert f0.cells == f0.cells[i := f0.cells[i].(halfEdges := hs)];
  }

  /**
   * When the loop of closeCells has passed every half-edge of the ring `hs`, every gap
   * was filled, the cell is the weave of `hs` and its runs, and it is closed.
   */
  lemma CloseEnd(st: (HalfEdge, EdgeState<nat>) -> Option<nat>, en: (HalfEdge, EdgeState<nat>) -> Option<nat>,
                 angle: (Site, Option<Site>, Option<Pt>, Option<Pt>) -> real, f0: Frame, f: Frame, i: nat, hs: seq<HalfEdge>,
                 site: Site, box: Bounds, iLeft: nat, runs: seq<seq<HalfEdge>>, vidss: seq<seq<nat>>)
    requires Closes(st, en, angle, f0, f, i, hs, site, box, |hs|, iLeft, runs, vidss) && OneOfEnds(st) && OneOfEnds(en)
    ensures Closable(Ends(st, en, f0.edgeAt, f0.vAt), hs, box)
    ensures ClosedAs(Ends(st, en, f.edgeAt, f.vAt), hs, runs, vidss, site, box, angle)
    ensures f.cells == f0.cells[i := f0.cells[i].(halfEdges := Weave(hs, runs))]
  {
    assert hs[..|hs|] == hs && hs[|hs|..] == [];
    assert Weave(hs[..|hs|], runs) + hs[|hs|..] == Weave(hs, runs);
    RunsFromNow(st, en, angle, f0, f, hs, runs, vidss, site, box);
  }

  /** Runs read from the frame `f0` and placed in the grown frame `f` close the ring in `f`. */
  lemma RunsFromNow(st: (HalfEdge, EdgeState<nat>) -> Option<nat>, en: (HalfEdge, EdgeState<nat>) -> Option<nat>,
                    angle: (Site, Option<Site>, Option<Pt>, Option<Pt>) -> real, f0: Frame, f: Frame, hs: seq<HalfEdge>,
                    runs: seq<seq<HalfEdge>>, vidss: seq<seq<nat>>, site: Site, box: Bounds)
    requires OneOfEnds(st) && OneOfEnds(en) && Grows(f0, f) && forall v :: v in f0.vs ==> v in f0.vAt
    requires forall h :: h in hs ==> Referable(h.edge, f0.junk, f0.count, f0.edgeAt, f0.vs)
    requires |runs| == |hs| && RunsFrom(Ends(st, en, f0.edgeAt, f0.vAt), hs, runs, vidss, site, box, angle, f.edgeAt, f.vAt)
    ensures Closable(Ends(st, en, f0.edgeAt, f0.vAt), hs, box)
    ensures ClosedAs(Ends(st, en, f.edgeAt, f.vAt), hs, runs, vidss, site, box, angle)
  {
    var e0, e1 := Ends(st, en, f0.edgeAt, f0.vAt), Ends(st, en, f.edgeAt, f.vAt);
    forall k | 0 <= k < |hs|
      ensures FillAt(e1, hs, k, box).Some? && |vidss[k]| > 0 && EndId(en, f.edgeAt, hs[k]) == Some(vidss[k][0])
      ensures BorderRun(runs[k], vidss[k], FillAt(e1, hs, k, box).value, site, f.edgeAt, f.vAt, angle)
    {
      FillAtKept(st, en, hs, k, box, f0, f);
    }
  }

  /**
   * What the loop of closeCells reads at `iLeft`: the end of `hs[k]` and the start of the
   * half-edge after it in the list so far, which are the ends of the `k`-th gap of `hs`.
   */
  lemma GapAt(st: (HalfEdge, EdgeState<nat>) -> Option<nat>, en: (HalfEdge, EdgeState<nat>) -> Option<nat>,
              angle: (Site, Option<Site>, Option<Pt>, Option<Pt>) -> real, f0: Frame, f1: Frame, i: nat, hs: seq<HalfEdge>,
              site: Site, box: Bounds, k: nat, iLeft: nat, runs: seq<seq<HalfEdge>>, vidss: seq<seq<nat>>)
    requires Closes(st, en, angle, f0, f1, i, hs, site, box, k, iLeft, runs, vidss) && k < |hs| && OneOfEnds(st) && OneOfEnds(en)
    ensures var x := f1.cells[i].halfEdges;
      iLeft < |x| && x[iLeft] == hs[k]
      && var a, z := EndId(en, f1.edgeAt, x[iLeft]), EndId(st, f1.edgeAt, x[(iLeft + 1) % |x|]);
      FillAt(Ends(st, en, f0.edgeAt, f0.vAt), hs, k, box) == GapFill(Located(f1.vAt, a), Located(f1.vAt, z), box)
      && a == EndId(en, f0.edgeAt, hs[k]) && (a.Some? ==> a.value in f1.vs)
  {
    WeaveStep(hs, k, runs, []);
    FillAtKept(st, en, hs, k, box, f0, f1);
  }

  /** Splicing in no half-edges leaves the list as it is. */
  lemma SpliceNone(x: seq<HalfEdge>, m: nat)
    requires m <= |x|
    ensures x[..m] + [] + x[m..] == x
  {
    assert x[..m] + x[m..] == x;
  }

  /** In the loop of closeCells the list has `|hs| - k` half-edges left after `iLeft`. */
  lemma ClosesLength(st: (HalfEdge, EdgeState<nat>) -> Option<nat>, en: (HalfEdge, EdgeState<nat>) -> Option<nat>,
                     angle: (Site, Option<Site>, Option<Pt>, Option<Pt>) -> real, f0: Frame, f: Frame, i: nat, hs: seq<HalfEdge>,
                     site: Site, box: Bounds, k: nat, iLeft: nat, runs: seq<seq<HalfEdge>>, vidss: seq<seq<nat>>)
    requires Closes(st, en, angle, f0, f, i, hs, site, box, k, iLeft, runs, vidss)
    ensures i < |f.cells| && |f.cells[i].halfEdges| == iLeft + |hs| - k
  {
  }

  /** What Cell.prepareHalfedges leaves of the half-edges `hs` when the edges are `edgeAt`. */
  function Prepared(edgeAt: map<nat, EdgeState<nat>>, hs: seq<HalfEdge>): (r: seq<HalfEdge>)
    ensures forall h :: h in r ==> h in hs && Complete(EdgeOf(edgeAt), h)
  {
    var r := SortByAngle(KeepComplete(EdgeOf(edgeAt), hs));
    assert forall h :: h in r ==> h in multiset(KeepComplete(EdgeOf(edgeAt), hs));
    r
  }

  /** Pruning reads only the edges of the half-edges pruned. */
  lemma {:induction false} KeepCompleteKept(e0: nat -> EdgeState<nat>, e1: nat -> EdgeState<nat>, hs: seq<HalfEdge>)
    requires forall h :: h in hs ==> e0(h.edge) == e1(h.edge)
    ensures KeepComplete(e0, hs) == KeepComplete(e1, hs)
  {
    if hs != [] {
      assert hs[0] in hs;
      assert forall h :: h in hs[1..] ==> h in hs;
      KeepCompleteKept(e0, e1, hs[1..]);
    }
  }

  /** Half-edges on referable edges are prepared alike while the state only grows. */
  lemma PreparedKept(f0: Frame, f1: Frame, hs: seq<HalfEdge>)
    requires Grows(f0, f1) && forall h :: h in hs ==> Referable(h.edge, f0.junk, f0.count, f0.edgeAt, f0.vs)
    ensures Prepared(f1.edgeAt, hs) == Prepared(f0.edgeAt, hs)
  {
    KeepCompleteKept(EdgeOf(f0.edgeAt), EdgeOf(f1.edgeAt), hs);
  }

  /** A ring of referable half-edges can be closed alike while the state only grows. */
  lemma ClosableKept(st: (HalfEdge, EdgeState<nat>) -> Option<nat>, en: (HalfEdge, EdgeState<nat>) -> Option<nat>,
                     f0: Frame, f1: Frame, hs: seq<HalfEdge>, box: Bounds)
    requires OneOfEnds(st) && OneOfEnds(en) && Grows(f0, f1) && forall v :: v in f0.vs ==> v in f0.vAt
    requires forall h :: h in hs ==> Referable(h.edge, f0.junk, f0.count, f0.edgeAt, f0.vs)
    ensures Closable(Ends(st, en, f1.edgeAt, f1.vAt), hs, box) <==> Closable(Ends(st, en, f0.edgeAt, f0.vAt), hs, box)
  {
    forall k | 0 <= k < |hs|
      ensures FillAt(Ends(st, en, f1.edgeAt, f1.vAt), hs, k, box) == FillAt(Ends(st, en, f0.edgeAt, f0.vAt), hs, k, box)
    {
      FillAtKept(st, en, hs, k, box, f0, f1);
    }
  }

  /** A cell whose half-edges are some of those it had keeps the edge pool fresh. */
  lemma NarrowedFresh(junk: seq<nat>, count: nat, cells: seq<CellState>, edgeAt: map<nat, EdgeState<nat>>, vs: seq<nat>,
                      i: nat, c: CellState)
    requires EdgesFresh(junk, count, cells, edgeAt, vs) && i < |cells| && forall h :: h in c.halfEdges ==> h in cells[i].halfEdges
    ensures EdgesFresh(junk, count, cells[i := c], edgeAt, vs)
  {
    var cells' := cells[i := c];
    forall j, h | 0 <= j < |cells'| && h in cells'[j].halfEdges
      ensures Referable(h.edge, junk, count, edgeAt, vs)
    {
      assert h in cells[j].halfEdges;
    }
  }

  /** closeCells does not throw on the cell `c`, whose half-edges prepare to `hs`: there are none, it is not marked, or it can be closed. */
  predicate CellOk(ends: Ends, c: CellState, hs: seq<HalfEdge>, box: Bounds)
  {
    hs == [] || !c.closeMe || Closable(ends, hs, box)
  }

  /**
   * closeCells made `c` of the cell `c0`, whose half-edges prepare to `hs`: the prepared
   * list alone when there are none or it is not marked; otherwise the prepared list
   * with the runs `runs` woven in, closed, and no longer marked.
   */
  predicate CellClosed(ends: Ends, c0: CellState, c: CellState, hs: seq<HalfEdge>, runs: seq<seq<HalfEdge>>, vidss: seq<seq<nat>>,
                       box: Bounds, angle: (Site, Option<Site>, Option<Pt>, Option<Pt>) -> real)
  {
    if hs == [] || !c0.closeMe then c == c0.(halfEdges := hs)
    else ClosedAs(ends, hs, runs, vidss, c0.site, box, angle) && c == CellState(c0.site, Weave(hs, runs), false)
  }

  /** A closed cell stays closed while the state only grows, its half-edges referable. */
  lemma CellClosedKept(st: (HalfEdge, EdgeState<nat>) -> Option<nat>, en: (HalfEdge, EdgeState<nat>) -> Option<nat>,
                       angle: (Site, Option<Site>, Option<Pt>, Option<Pt>) -> real, f1: Frame, f2: Frame, c0: CellState, c: CellState,
                       hs: seq<HalfEdge>, runs: seq<seq<HalfEdge>>, vidss: seq<seq<nat>>, box: Bounds)
    requires OneOfEnds(st) && OneOfEnds(en) && Grows(f1, f2) && forall v :: v in f1.vs ==> v in f1.vAt
    requires CellClosed(Ends(st, en, f1.edgeAt, f1.vAt), c0, c, hs, runs, vidss, box, angle)
    requires forall h :: h in c.halfEdges ==> Referable(h.edge, f1.junk, f1.count, f1.edgeAt, f1.vs)
    ensures CellClosed(Ends(st, en, f2.edgeAt, f2.vAt), c0, c, hs, runs, vidss, box, angle)
  {
    if hs != [] && c0.closeMe {
      ClosedAsKept(st, en, hs, runs, vidss, c0.site, box, angle, f1, f2);
    }
  }

  /**
   * The loop of closeCells over the cells of the frame `f0`, in the frame `f`, having
   * passed the cells from the last down to `iCell`: none of them threw, each is closed
   * with its runs in `runss`, and the cells below `iCell` are as they were.
   */
  predicate Seals(st: (HalfEdge, EdgeState<nat>) -> Option<nat>, en: (HalfEdge, EdgeState<nat>) -> Option<nat>,
                  angle: (Site, Option<Site>, Option<Pt>, Option<Pt>) -> real, f0: Frame, f: Frame, box: Bounds, iCell: nat,
                  runss: seq<seq<seq<HalfEdge>>>, vidsss: seq<seq<seq<nat>>>)
  {
    Grows(f0, f) && iCell <= |f.cells| == |f0.cells| == |runss| == |vidsss|
    && (forall j :: 0 <= j < iCell ==> f.cells[j] == f0.cells[j])
    && (forall j :: iCell <= j < |f0.cells| ==>
          CellOk(Ends(st, en, f0.edgeAt, f0.vAt), f0.cells[j], Prepared(f0.edgeAt, f0.cells[j].halfEdges), box))
    && (forall j :: iCell <= j < |f0.cells| ==>
          CellClosed(Ends(st, en, f.edgeAt, f.vAt), f0.cells[j], f.cells[j], Prepared(f0.edgeAt, f0.cells[j].halfEdges),
                     runss[j], vidsss[j], box, angle))
  }

  /** One turn of closeCells, on the cell `i` (from the frame `f1` to `f2`), passes one more cell. */
  lemma SealStep(st: (HalfEdge, EdgeState<nat>) -> Option<nat>, en: (HalfEdge, EdgeState<nat>) -> Option<nat>,
                 angle: (Site, Option<Site>, Option<Pt>, Option<Pt>) -> real, f0: Frame, f1: Frame, f2: Frame, box: Bounds, i: nat,
                 runss: seq<seq<seq<HalfEdge>>>, vidsss: seq<seq<seq<nat>>>, runs: seq<seq<HalfEdge>>, vidss: seq<seq<nat>>)
    requires Seals(st, en, angle, f0, f1, box, i + 1, runss, vidsss) && OneOfEnds(st) && OneOfEnds(en)
    requires EdgesFresh(f1.junk, f1.count, f1.cells, f1.edgeAt, f1.vs) && (forall v :: v in f1.vs ==> v in f1.vAt) && Grows(f1, f2)
    requires |f2.cells| == |f1.cells| && forall j :: 0 <= j < |f2.cells| && j != i ==> f2.cells[j] == f1.cells[j]
    requires CellOk(Ends(st, en, f0.edgeAt, f0.vAt), f0.cells[i], Prepared(f0.edgeAt, f0.cells[i].halfEdges), box)
    requires CellClosed(Ends(st, en, f2.edgeAt, f2.vAt), f0.cells[i], f2.cells[i], Prepared(f0.edgeAt, f0.cells[i].halfEdges),
                        runs, vidss, box, angle)
    ensures Seals(st, en, angle, f0, f2, box, i, runss[i := runs], vidsss[i := vidss])
  {
    GrowsTrans(f0, f1, f2);
    forall j | i < j < |f0.cells|
      ensures CellClosed(Ends(st, en, f2.edgeAt, f2.vAt), f0.cells[j], f2.cells[j], Prepared(f0.edgeAt, f0.cells[j].halfEdges),
                         runss[j], vidsss[j], box, angle)
    {
      CellClosedKept(st, en, angle, f1, f2, f0.cells[j], f1.cells[j], Prepared(f0.edgeAt, f0.cells[j].halfEdges),
                     runss[j], vidsss[j], box);
    }
  }

  // ---------------------------------------------------------------------------
  // From clipEdges to closeCells

  /**
   * clipEdges keeps the edge pool's promise: it only marks cells, only grows the vertex
   * list, keeps the known edges, and leaves each edge it finishes ending at listed vertices.
   */
  lemma ClipKeepsFresh(junk: seq<nat>, count: nat, cells0: seq<CellState>, edgeAt0: map<nat, EdgeState<nat>>, vs0: seq<nat>,
                       cells1: seq<CellState>, edgeAt1: map<nat, EdgeState<nat>>, vs1: seq<nat>, E0: seq<nat>)
    requires EdgesFresh(junk, count, cells0, edgeAt0, vs0) && Marked(cells0, cells1)
    requires (forall v :: v in vs0 ==> v in vs1) && edgeAt1.Keys == edgeAt0.Keys
    requires forall e :: e in E0 ==> e in edgeAt1 && EndsIn(edgeAt1[e], vs1)
    requires forall e :: e in edgeAt0 && e !in E0 ==> edgeAt1[e] == edgeAt0[e]
    ensures EdgesFresh(junk, count, cells1, edgeAt1, vs1)
  {
    forall i, h | 0 <= i < |cells1| && h in cells1[i].halfEdges ensures Referable(h.edge, junk, count, edgeAt1, vs1) {
      assert h in cells0[i].halfEdges;
      assert Referable(h.edge, junk, count, edgeAt0, vs0);
    }
  }

  /** A settled edge ends at listed vertices. */
  lemma SettledEndsIn(es1: EdgeState<nat>, es0: EdgeState<nat>, f: Option<(Pt, Pt)>, vAt: map<nat, Pt>, vs: seq<nat>)
    requires Settled(es1, es0, f, vAt, vs)
    ensures EndsIn(es1, vs)
  {
  }

  /** A cell closeCells has handled keeps its site, and is left marked for closing only when it has no half-edges. */
  lemma ClosedUnmarked(ends: Ends, c0: CellState, c: CellState, hs: seq<HalfEdge>, runs: seq<seq<HalfEdge>>,
                       vidss: seq<seq<nat>>, box: Bounds, angle: (Site, Option<Site>, Option<Pt>, Option<Pt>) -> real)
    requires CellClosed(ends, c0, c, hs, runs, vidss, box, angle)
    ensures c.site == c0.site && (c.closeMe ==> c.halfEdges == [])
  {
  }
}
