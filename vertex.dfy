/**
 * src/Vertex.js: a point of the diagram, and the static pool ("junkyard") that
 * `Vertex.create` draws reusable vertices from before allocating new ones.
 */
module Vertices {
  import opened Points

  /** Vertex: a Point (the coordinates and `moveTo` of src/Point.js). */
  class Vertex {
    var x: real
    var y: real

    /** The coordinates this vertex holds. */
    function Value(): Pt
      reads this
    {
      Pt(x, y)
    }

    /** Vertex.constructor without arguments: the defaults put the vertex at (0, 0). */
    constructor Origin()
      ensures Value() == Pt(0.0, 0.0)
    {
      x, y := 0.0, 0.0;
    }

    /** Vertex.constructor: a vertex at (`x`, `y`). */
    constructor(x: real, y: real)
      ensures Value() == Pt(x, y)
    {
      this.x, this.y := x, y;
    }

    /** Point.moveTo, inherited: sets exactly the two coordinates. */
    method MoveTo(x: real, y: real)
      modifies this
      ensures Value() == Pt(x, y)
    {
      this.x, this.y := x, y;
    }
  }

  /** The static `Vertex.junkyard`: vertices handed back for reuse, the last one reused first. */
  class VertexPool {
    var junkyard: seq<Vertex>

    /** An empty pool. */
    constructor()
      ensures junkyard == []
    {
      junkyard := [];
    }

    /**
     * Vertex.create: always a vertex at (`x`, `y`).  With an empty pool it is new and the
     * pool stays empty; otherwise it is the last pooled vertex, moved, and the pool loses it.
     */
    method Create(x: real, y: real) returns (v: Vertex)
      modifies this, if |junkyard| > 0 then {junkyard[|junkyard| - 1]} else {}
      ensures v.Value() == Pt(x, y)
      ensures old(junkyard) == [] ==> fresh(v) && junkyard == []
      ensures old(junkyard) != [] ==>
        v == old(junkyard[|junkyard| - 1]) && junkyard == old(junkyard[..|junkyard| - 1])
    {
      if |junkyard| == 0 {
        v := new Vertex(x, y);
      } else {
        v := junkyard[|junkyard| - 1];
        junkyard := junkyard[..|junkyard| - 1];
        v.MoveTo(x, y);
      }
    }
  }
}
