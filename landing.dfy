/**
 * Where addBeachSection (src/Voronoi.js) puts a new site on the beachline, stated on the
 * beachline's arcs in order: the break points of the `i`-th arc, the distances `dxl`
 * and `dxr` of the site from them, the decision `Land` makes at that arc, and the arcs
 * the new one goes between.
 */
module Landing {
  import opened Wrappers
  import opened Sites
  import opened Extended
  import opened Epsilon
  import opened BreakPoints
  import opened RBNodes
  import opened SweepState

  /** Every arc of the beachline `b` has its payload in `arcs`. */
  predicate Payloads(b: seq<nat>, arcs: map<nat, Arc>)
  {
    forall a :: a in b ==> a in arcs
  }

  /** The left break point of the `i`-th arc: the site of the arc before it (if any) decides it. */
  function LeftOfArc(sqrt: real -> real, b: seq<nat>, arcs: map<nat, Arc>, i: nat, directrix: real): Ext
    requires Payloads(b, arcs) && i < |b|
  {
    LeftBreakPoint(sqrt, arcs[b[i]].site, if i > 0 then Some(arcs[b[i - 1]].site) else None, directrix)
  }

  /** The right break point of the `i`-th arc: the site of the arc after it (if any) decides it. */
  function RightOfArc(sqrt: real -> real, b: seq<nat>, arcs: map<nat, Arc>, i: nat, directrix: real): Ext
    requires Payloads(b, arcs) && i < |b|
  {
    RightBreakPoint(sqrt, arcs[b[i]].site, if i < |b| - 1 then Some(arcs[b[i + 1]].site) else None, directrix)
  }

  /** `dxl`: the left break point of the `i`-th arc minus the site's x (the sweep line is at the site's y). */
  function Dxl(sqrt: real -> real, b: seq<nat>, arcs: map<nat, Arc>, i: nat, s: Site): Ext
    requires Payloads(b, arcs) && i < |b|
  {
    ExtSub(LeftOfArc(sqrt, b, arcs, i, s.y), Fin(s.x))
  }

  /** `dxr`: the site's x minus the right break point of the `i`-th arc. */
  function Dxr(sqrt: real -> real, b: seq<nat>, arcs: map<nat, Arc>, i: nat, s: Site): Ext
    requires Payloads(b, arcs) && i < |b|
  {
    ExtSub(Fin(s.x), RightOfArc(sqrt, b, arcs, i, s.y))
  }

  /** The decision at the `i`-th arc; the arc has something on its right exactly when it is not the last. */
  function PlaceAt(sqrt: real -> real, b: seq<nat>, arcs: map<nat, Arc>, i: nat, s: Site): Place
    requires Payloads(b, arcs) && i < |b|
  {
    Land(Dxl(sqrt, b, arcs, i, s), Dxr(sqrt, b, arcs, i, s), i < |b| - 1)
  }

  /**
   * The arcs the new one goes between when the search stops at the `i`-th arc with the
   * decision `p`: none on either side when it goes left of the first arc, the arc alone
   * on its left past the last arc, the arc and its neighbour on that side at an edge,
   * and the arc on both sides inside it.
   */
  function Between(b: seq<nat>, i: nat, p: Place): (r: (Option<nat>, Option<nat>))
    requires i < |b|
  {
    match p
    case GoLeft => (None, None)
    case GoRight => (Some(b[i]), None)
    case AfterLast => (Some(b[i]), None)
    case OnLeftEdge => (if i > 0 then Some(b[i - 1]) else None, Some(b[i]))
    case OnRightEdge => (Some(b[i]), if i < |b| - 1 then Some(b[i + 1]) else None)
    case Inside => (Some(b[i]), Some(b[i]))
  }

  /**
   * `p` holds the decision the search takes at each arc of the beachline `b`. (The
   * quantifier is triggered only by a mention of `PlaceAt`, so a proof that reasons
   * about `p` alone does not unfold the break points.)
   */
  predicate Decisions(sqrt: real -> real, b: seq<nat>, arcs: map<nat, Arc>, s: Site, p: seq<Place>)
  {
    Payloads(b, arcs) && |p| == |b|
    && forall j: nat {:trigger PlaceAt(sqrt, b, arcs, j, s)} :: j < |b| ==> p[j] == PlaceAt(sqrt, b, arcs, j, s)
  }

  /** The decisions at all arcs of the beachline, in order. */
  lemma DecisionsOf(sqrt: real -> real, b: seq<nat>, arcs: map<nat, Arc>, s: Site) returns (p: seq<Place>)
    requires Payloads(b, arcs)
    ensures Decisions(sqrt, b, arcs, s, p)
  {
    p := seq(|b|, (j: int) requires 0 <= j < |b| => PlaceAt(sqrt, b, arcs, j, s));
  }

  /**
   * Decisions that fit together along the beachline: the search goes right only at an
   * arc that has a next arc, and never right at one arc and left at the next.
   */
  predicate Consistent(p: seq<Place>)
  {
    forall j :: 0 <= j < |p| && p[j] == GoRight ==> j + 1 < |p| && p[j + 1] != GoLeft
  }

  /**
   * The outcome of the search on the beachline `b` with the decisions `p`: on an empty
   * beachline there is no arc on either side; otherwise the search stopped at some arc
   * `i` where it did not go right, went left only from the first arc, and `(l, r)` is
   * what `Between` gives.
   */
  predicate Landed(p: seq<Place>, b: seq<nat>, i: nat, l: Option<nat>, r: Option<nat>)
    requires |p| == |b|
  {
    if b == [] then l.None? && r.None?
    else i < |b| && p[i] != GoRight && (p[i] == GoLeft ==> i == 0) && (l, r) == Between(b, i, p[i])
  }

  /** The arcs a search lands between are arcs of the beachline. */
  lemma LandedMembers(p: seq<Place>, b: seq<nat>, i: nat, l: Option<nat>, r: Option<nat>)
    requires |p| == |b| && Landed(p, b, i, l, r)
    ensures l.Some? ==> l.value in b
    ensures r.Some? ==> r.value in b
  {
  }

  /** Neighbouring arcs share a break point, and it is finite. */
  lemma SharedBreakPoint(sqrt: real -> real, b: seq<nat>, arcs: map<nat, Arc>, i: nat, directrix: real)
    requires Payloads(b, arcs) && i + 1 < |b|
    ensures RightOfArc(sqrt, b, arcs, i, directrix) == LeftOfArc(sqrt, b, arcs, i + 1, directrix)
    ensures LeftOfArc(sqrt, b, arcs, i + 1, directrix).Fin?
  {
  }

  /**
   * A site cannot be clearly right of the `i`-th arc and clearly left of the next one:
   * the two arcs meet at one finite break point.
   */
  lemma NotPastBoth(sqrt: real -> real, b: seq<nat>, arcs: map<nat, Arc>, i: nat, s: Site)
    requires Payloads(b, arcs) && i + 1 < |b|
    ensures !(GreaterThanEpsilonExt(Dxr(sqrt, b, arcs, i, s)) && GreaterThanEpsilonExt(Dxl(sqrt, b, arcs, i + 1, s)))
  {
    SharedBreakPoint(sqrt, b, arcs, i, s.y);
  }

  /**
   * The search leaves the beachline on the left only at a first arc whose site lies on
   * the sweep line (a vertical ray) and right of the new site; every other first arc
   * reaches to -Infinity.
   */
  lemma GoLeftOnlyAtRay(sqrt: real -> real, b: seq<nat>, arcs: map<nat, Arc>, s: Site)
    requires Payloads(b, arcs) && b != []
    ensures PlaceAt(sqrt, b, arcs, 0, s) == GoLeft ==> arcs[b[0]].site.y == s.y && arcs[b[0]].site.x - s.x > Eps
  {
  }

  /** Inside an arc means clear of both its break points by at least ε. */
  lemma InsideIsClear(sqrt: real -> real, b: seq<nat>, arcs: map<nat, Arc>, i: nat, s: Site)
    requires Payloads(b, arcs) && i < |b|
    requires PlaceAt(sqrt, b, arcs, i, s) == Inside
    ensures ExtLess(LeftOfArc(sqrt, b, arcs, i, s.y), Fin(s.x - Eps)) || LeftOfArc(sqrt, b, arcs, i, s.y) == Fin(s.x - Eps)
    ensures ExtLess(Fin(s.x + Eps), RightOfArc(sqrt, b, arcs, i, s.y)) || RightOfArc(sqrt, b, arcs, i, s.y) == Fin(s.x + Eps)
  {
  }

  /** A stretch `b[lo..hi]` laid out as a subtree's in-order sequence `left + [x] + right`. */
  lemma SliceSplit(b: seq<nat>, lo: nat, hi: nat, left: seq<nat>, x: nat, right: seq<nat>)
    requires lo <= hi <= |b| && b[lo..hi] == left + [x] + right
    ensures lo + |left| < hi && b[lo + |left|] == x
    ensures b[lo..lo + |left|] == left && b[lo + |left| + 1..hi] == right
  {
    assert b[lo..hi][|left|] == x;
    assert b[lo..lo + |left|] == b[lo..hi][..|left|];
    assert b[lo + |left| + 1..hi] == b[lo..hi][|left| + 1..];
  }

  /** The decisions of the search fit together: two neighbouring arcs share a break point. */
  lemma DecisionsConsistent(sqrt: real -> real, b: seq<nat>, arcs: map<nat, Arc>, s: Site, p: seq<Place>)
    requires Decisions(sqrt, b, arcs, s, p)
    ensures Consistent(p)
  {
    forall j | 0 <= j < |p| && p[j] == GoRight
      ensures j + 1 < |p| && p[j + 1] != GoLeft
    {
      assert p[j] == PlaceAt(sqrt, b, arcs, j, s);
      if j + 1 < |p| {
        assert p[j + 1] == PlaceAt(sqrt, b, arcs, j + 1, s);
        NotPastBoth(sqrt, b, arcs, j, s);
      }
    }
  }

  /**
   * The decision at the `k`-th arc of a subtree covering `b[lo..hi]`, taken with "has a
   * right child" for "has something on the right", is the decision at that arc, once
   * the search has gone left at the arc after the subtree.
   */
  lemma StepDecision(sqrt: real -> real, b: seq<nat>, arcs: map<nat, Arc>, s: Site, p: seq<Place>, k: nat, hi: nat, hasRight: bool)
    requires Decisions(sqrt, b, arcs, s, p) && Consistent(p)
    requires k < hi <= |b| && (hasRight <==> k + 1 < hi) && (hi < |b| ==> p[hi] == GoLeft)
    ensures Land(Dxl(sqrt, b, arcs, k, s), Dxr(sqrt, b, arcs, k, s), hasRight) == p[k]
  {
    assert p[k] == PlaceAt(sqrt, b, arcs, k, s);
  }

  /**
   * The search is at the root of `node`, a subtree whose arcs are `b[lo..hi]`, having
   * gone right at the arc before the subtree and left at the arc after it.
   */
  predicate SearchWindow(p: seq<Place>, b: seq<nat>, node: Tree, lo: nat, hi: nat)
  {
    |p| == |b| && node.Node? && lo < hi <= |b| && b[lo..hi] == InOrder(node)
    && (lo > 0 ==> p[lo - 1] == GoRight) && (hi < |b| ==> p[hi] == GoLeft)
  }

  /**
   * One step down the tree: the root of the window is its `k`-th arc, where `k` counts
   * the left subtree; going left or right leaves the search in the window of that child,
   * and going left off the tree happens only at the first arc.
   */
  lemma Descend(p: seq<Place>, b: seq<nat>, node: Tree, lo: nat, k: nat, hi: nat)
    requires SearchWindow(p, b, node, lo, hi) && Consistent(p) && k == lo + |InOrder(node.left)|
    ensures k < hi && b[k] == node.id
    ensures p[k] == GoLeft && node.left != Nil ==> SearchWindow(p, b, node.left, lo, k)
    ensures p[k] == GoLeft && node.left == Nil ==> k == 0
    ensures p[k] == GoRight ==> SearchWindow(p, b, node.right, k + 1, hi)
  {
    SliceSplit(b, lo, hi, InOrder(node.left), node.id, InOrder(node.right));
  }

  /** The arcs the new one goes between, read off the stopping arc `id` and its neighbours. */
  function Neighbours(id: nat, prev: Option<nat>, next: Option<nat>, p: Place): (r: (Option<nat>, Option<nat>))
  {
    match p
    case GoLeft => (None, None)
    case GoRight => (Some(id), None)
    case AfterLast => (Some(id), None)
    case OnLeftEdge => (prev, Some(id))
    case OnRightEdge => (Some(id), next)
    case Inside => (Some(id), Some(id))
  }

  /** With the neighbours the beachline links give, `Neighbours` is `Between`. */
  lemma BetweenByLinks(b: seq<nat>, i: nat, id: nat, prev: Option<nat>, next: Option<nat>, p: Place)
    requires i < |b| && b[i] == id
    requires prev == (if i > 0 then Some(b[i - 1]) else None)
    requires next == (if i < |b| - 1 then Some(b[i + 1]) else None)
    ensures Neighbours(id, prev, next, p) == Between(b, i, p)
  {
  }
}
