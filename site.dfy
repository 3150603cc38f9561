/**
 * A site of the diagram (src/Site.js): a point the caller supplies.  The source tells
 * sites apart by object identity; here each carries an `id` standing for that identity.
 */
module Sites {
  import opened Points

  datatype Site = Site(id: nat, x: real, y: real)
  {
    /** The site's coordinates. */
    function Pos(): Pt
    {
      Pt(x, y)
    }
  }
}
