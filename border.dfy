/**
 * The walk along the bounding box that closeCells (src/Voronoi.js) takes to fill one gap
 * of a cell: from the end point `va` of a half-edge to the start point `vz` of the next,
 * along the left side downward, the bottom rightward, the right side upward and the top
 * leftward, one side after the other.  The source writes it as a `switch` whose cases
 * fall through; its seven cases are the sides 0 left, 1 bottom, 2 right, 3 top, 0, 1, 2
 * (`SideOf`).
 */
module Border {
  import opened Wrappers
  import opened Points
  import opened Epsilon
  import opened Clipping

  /**
   * The side where the walk enters, as the `switch (true)` of closeCells tries them:
   * 0 left, 1 bottom, 2 right, 3 top; none when `va` is on no side (the `default` throw).
   */
  function EntrySide(va: Pt, box: Bounds): (k: Option<nat>)
    ensures k.Some? ==> k.value < 4
  {
    if EqualWithEpsilon(va.x, box.left) && LessThanEpsilon(va.y, box.bottom) then Some(0)
    else if EqualWithEpsilon(va.y, box.bottom) && LessThanEpsilon(va.x, box.right) then Some(1)
    else if EqualWithEpsilon(va.x, box.right) && GreaterThanEpsilon(va.y, box.top) then Some(2)
    else if EqualWithEpsilon(va.y, box.top) && GreaterThanEpsilon(va.x, box.left) then Some(3)
    else None
  }

  /** On side `side` the walk has reached the side of `vz`: this segment is the last one. */
  predicate Reaches(side: nat, vz: Pt, box: Bounds)
    requires side < 4
  {
    if side == 0 then EqualWithEpsilon(vz.x, box.left)
    else if side == 1 then EqualWithEpsilon(vz.y, box.bottom)
    else if side == 2 then EqualWithEpsilon(vz.x, box.right)
    else EqualWithEpsilon(vz.y, box.top)
  }

  /** The corner where side `side` ends: left goes down to the bottom, bottom right, right up, top left. */
  function Corner(side: nat, box: Bounds): Pt
    requires side < 4
  {
    if side == 0 then Pt(box.left, box.bottom)
    else if side == 1 then Pt(box.right, box.bottom)
    else if side == 2 then Pt(box.right, box.top)
    else Pt(box.left, box.top)
  }

  /** Where the segment on side `side` ends: at `vz` projected on the side when it is the last one, else at the corner. */
  function SegmentEnd(side: nat, vz: Pt, box: Bounds): (vb: Pt)
    requires side < 4
    ensures side == 0 ==> vb.x == box.left
    ensures side == 1 ==> vb.y == box.bottom
    ensures side == 2 ==> vb.x == box.right
    ensures side == 3 ==> vb.y == box.top
  {
    if !Reaches(side, vz, box) then Corner(side, box)
    else if side == 0 then Pt(box.left, vz.y)
    else if side == 1 then Pt(vz.x, box.bottom)
    else if side == 2 then Pt(box.right, vz.y)
    else Pt(vz.x, box.top)
  }

  /** The point `p` lies on the line of side `side`. */
  predicate OnSideLine(p: Pt, side: nat, box: Bounds)
    requires side < 4
  {
    if side == 0 then p.x == box.left
    else if side == 1 then p.y == box.bottom
    else if side == 2 then p.x == box.right
    else p.y == box.top
  }

  /** The side the `n`-th case of the fall-through walks along. */
  function SideOf(n: nat): (side: nat)
    requires n < 8
    ensures side < 4
  {
    if n < 4 then n else n - 4
  }

  /**
   * The end points of the border segments closeCells adds, from the `j`-th side of the
   * walk on (the source's fall-through stops after its seventh case, `j == 6`); none
   * when the walk runs past the last case without reaching `vz` (the `default` throw).
   */
  function Walk(vz: Pt, box: Bounds, j: nat): (r: Option<seq<Pt>>)
    requires j <= 6
    ensures r.Some? ==> 1 <= |r.value| <= 7 - j
    ensures r.Some? ==> forall i :: 0 <= i < |r.value| ==> OnSideLine(r.value[i], SideOf(j + i), box)
    ensures r.Some? ==> Reaches(SideOf(j + |r.value| - 1), vz, box)
    ensures r.Some? ==> forall i :: 0 <= i < |r.value| - 1 ==> r.value[i] == Corner(SideOf(j + i), box)
    decreases 6 - j
  {
    if Reaches(SideOf(j), vz, box) then Some([SegmentEnd(SideOf(j), vz, box)])
    else if j == 6 then None
    else
      match Walk(vz, box, j + 1)
      case None => None
      case Some(rest) =>
        var r := [Corner(SideOf(j), box)] + rest;
        assert forall i :: 1 <= i < |r| ==> r[i] == rest[i - 1] && SideOf(j + i) == SideOf(j + 1 + (i - 1));
        Some(r)
  }

  /** The border points closeCells adds to fill the gap from `va` to `vz`, or none when it throws. */
  function Gap(va: Pt, vz: Pt, box: Bounds): Option<seq<Pt>>
  {
    match EntrySide(va, box)
    case None => None
    case Some(k) => Walk(vz, box, k)
  }

  /** The last segment of a walk ends within ε of `vz` in both coordinates. */
  lemma {:induction false} WalkEndsAtTarget(vz: Pt, box: Bounds, j: nat)
    requires j <= 6 && Walk(vz, box, j).Some?
    ensures var ps := Walk(vz, box, j).value;
      EqualWithEpsilon(ps[|ps| - 1].x, vz.x) && EqualWithEpsilon(ps[|ps| - 1].y, vz.y)
    decreases 6 - j
  {
    if !Reaches(SideOf(j), vz, box) {
      WalkEndsAtTarget(vz, box, j + 1);
    }
  }

  /**
   * Every segment of a walk starts where the one before ended, on the line of its own
   * side: each point but the last is a corner, which also lies on the next side.
   */
  lemma {:induction false} WalkChained(vz: Pt, box: Bounds, j: nat)
    requires j <= 6 && Walk(vz, box, j).Some?
    ensures var ps := Walk(vz, box, j).value;
      forall i :: 0 <= i < |ps| - 1 ==> OnSideLine(ps[i], SideOf(j + i + 1), box)
    decreases 6 - j
  {
    var ps := Walk(vz, box, j).value;
    if !Reaches(SideOf(j), vz, box) {
      var rest := Walk(vz, box, j + 1).value;
      WalkChained(vz, box, j + 1);
      assert ps == [Corner(SideOf(j), box)] + rest;
      assert OnSideLine(ps[0], SideOf(j + 1), box) by {
        CornerOnNext(j, box);
      }
      forall i | 1 <= i < |ps| - 1 ensures OnSideLine(ps[i], SideOf(j + i + 1), box) {
        assert ps[i] == rest[i - 1];
      }
    }
  }

  /** The walk enters on a side that `va` is within ε of. */
  lemma GapEntry(va: Pt, box: Bounds)
    requires EntrySide(va, box).Some?
    ensures var k := EntrySide(va, box).value;
      (k == 0 ==> EqualWithEpsilon(va.x, box.left)) && (k == 1 ==> EqualWithEpsilon(va.y, box.bottom)) &&
      (k == 2 ==> EqualWithEpsilon(va.x, box.right)) && (k == 3 ==> EqualWithEpsilon(va.y, box.top))
  {
  }

  /** The corner ending the side of case `n` lies on the side of case `n + 1`. */
  lemma CornerOnNext(n: nat, box: Bounds)
    requires n < 7
    ensures OnSideLine(Corner(SideOf(n), box), SideOf(n + 1), box)
  {
  }

  /** A gap is filled only when `va` is within ε of a side. */
  lemma GapNeedsEntry(va: Pt, vz: Pt, box: Bounds)
    ensures Gap(va, vz, box).Some? ==>
      EqualWithEpsilon(va.x, box.left) || EqualWithEpsilon(va.y, box.bottom) ||
      EqualWithEpsilon(va.x, box.right) || EqualWithEpsilon(va.y, box.top)
  {
  }
}
