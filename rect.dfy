/**
 * src/Rect.js: an axis-aligned rectangle stored as origin and size.  The right and
 * bottom sides are derived (`x + w`, `y + h`); setting them resizes the rectangle and
 * keeps the origin, while setting the left or top side moves it and keeps the size.
 */
module Rects {
  import opened Points

  class Rect {
    var x: real
    var y: real
    var w: real
    var h: real

    /** Rect.constructor with two arguments: a `w` by `h` rectangle at the origin. */
    constructor Sized(w: real, h: real)
      ensures x == 0.0 && y == 0.0 && this.w == w && this.h == h
    {
      x, y := 0.0, 0.0;
      this.w, this.h := w, h;
    }

    /** Rect.constructor with four arguments: all four fields copied. */
    constructor(x: real, y: real, w: real, h: real)
      ensures this.x == x && this.y == y && this.w == w && this.h == h
    {
      this.x, this.y := x, y;
      this.w, this.h := w, h;
    }

    /** The `left` getter: the origin's x. */
    function Left(): (r: real)
      reads this
      ensures r == Right() - Width()
    {
      x
    }

    /** The `top` getter: the origin's y. */
    function Top(): (r: real)
      reads this
      ensures r == Bottom() - Height()
    {
      y
    }

    /** The `right` getter: the left side moved by the width. */
    function Right(): (r: real)
      reads this
      ensures r - x == w
    {
      x + w
    }

    /** The `bottom` getter: the top side moved by the height. */
    function Bottom(): (r: real)
      reads this
      ensures r - y == h
    {
      y + h
    }

    /** The `width` getter. */
    function Width(): real
      reads this
    {
      w
    }

    /** The `height` getter. */
    function Height(): real
      reads this
    {
      h
    }

    /** The `centerX` getter: as far from the right side as from the left. */
    function CenterX(): (r: real)
      reads this
      ensures r - Left() == Right() - r
      ensures 0.0 <= w ==> Left() <= r <= Right()
    {
      x + w / 2.0
    }

    /** The `centerY` getter: as far from the bottom side as from the top. */
    function CenterY(): (r: real)
      reads this
      ensures r - Top() == Bottom() - r
      ensures 0.0 <= h ==> Top() <= r <= Bottom()
    {
      y + h / 2.0
    }

    /** The `area` getter: width times height, not negative for a non-negative size. */
    function Area(): (r: real)
      reads this
      ensures r == Width() * Height()
      ensures 0.0 <= w && 0.0 <= h ==> 0.0 <= r
    {
      w * h
    }

    /** The `xl` getter: the left side. */
    function Xl(): (r: real)
      reads this
      ensures r == Left()
    {
      x
    }

    /** The `xr` getter: the right side. */
    function Xr(): (r: real)
      reads this
      ensures r == Right()
    {
      x + w
    }

    /** The `yt` getter: the top side. */
    function Yt(): (r: real)
      reads this
      ensures r == Top()
    {
      y
    }

    /** The `yb` getter: the bottom side. */
    function Yb(): (r: real)
      reads this
      ensures r == Bottom()
    {
      y + h
    }

    /** The `center` getter: a new point at (centerX, centerY). */
    method Center() returns (p: Point)
      ensures fresh(p) && p.Value() == Pt(CenterX(), CenterY())
    {
      p := new Point(CenterX(), CenterY());
    }

    /** The `left` setter: moves the rectangle, keeping its width, so the right side shifts too. */
    method SetLeft(v: real)
      modifies this
      ensures Left() == v && w == old(w) && y == old(y) && h == old(h)
      ensures Right() == old(Right()) + (v - old(x))
    {
      x := v;
    }

    /** The `top` setter: moves the rectangle, keeping its height, so the bottom side shifts too. */
    method SetTop(v: real)
      modifies this
      ensures Top() == v && h == old(h) && x == old(x) && w == old(w)
      ensures Bottom() == old(Bottom()) + (v - old(y))
    {
      y := v;
    }

    /** The `right` setter: resizes the rectangle, keeping its left side. */
    method SetRight(v: real)
      modifies this
      ensures Right() == v && x == old(x) && y == old(y) && h == old(h)
    {
      w := v - x;
    }

    /** The `bottom` setter: resizes the rectangle, keeping its top side. */
    method SetBottom(v: real)
      modifies this
      ensures Bottom() == v && y == old(y) && x == old(x) && w == old(w)
    {
      h := v - y;
    }

    /** The `width` setter: keeps the left side, so the right side moves. */
    method SetWidth(v: real)
      modifies this
      ensures Width() == v && Right() == x + v && x == old(x) && y == old(y) && h == old(h)
    {
      w := v;
    }

    /** The `height` setter: keeps the top side, so the bottom side moves. */
    method SetHeight(v: real)
      modifies this
      ensures Height() == v && Bottom() == y + v && x == old(x) && y == old(y) && w == old(w)
    {
      h := v;
    }
  }
}
