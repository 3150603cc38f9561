/**
 * The extended reals: the source's arithmetic reaches `Infinity` and `-Infinity`
 * (break points of the outermost arcs, the running bounds of a bounding box), and
 * compares and subtracts them.  Only the operations the model needs are defined.
 */
module Extended {

  datatype Ext = NegInf | Fin(v: real) | PosInf

  /** `a < b`, as JavaScript compares numbers that may be infinite. */
  predicate ExtLess(a: Ext, b: Ext)
  {
    match (a, b)
    case (Fin(x), Fin(y)) => x < y
    case (NegInf, NegInf) => false
    case (NegInf, _) => true
    case (Fin(_), PosInf) => true
    case _ => false
  }

  /** `a - b`, defined wherever JavaScript gives a number (it gives NaN for `Infinity - Infinity`). */
  function ExtSub(a: Ext, b: Ext): (r: Ext)
    requires !(a == b && !a.Fin?)
    ensures a.Fin? && b.Fin? ==> r == Fin(a.v - b.v)
    ensures r == NegInf <==> a == NegInf || b == PosInf
    ensures r == PosInf <==> a == PosInf || b == NegInf
  {
    match (a, b)
    case (Fin(x), Fin(y)) => Fin(x - y)
    case (NegInf, _) => NegInf
    case (_, PosInf) => NegInf
    case _ => PosInf
  }

  /** `-a`. */
  function ExtNeg(a: Ext): (r: Ext)
    ensures a.Fin? ==> r == Fin(-a.v)
    ensures r.Fin? == a.Fin?
  {
    match a
    case NegInf => PosInf
    case Fin(x) => Fin(-x)
    case PosInf => NegInf
  }

  /** Negating twice gives back the number, and negation reverses `<`. */
  lemma ExtNegInvolution(a: Ext, b: Ext)
    ensures ExtNeg(ExtNeg(a)) == a
    ensures ExtLess(a, b) <==> ExtLess(ExtNeg(b), ExtNeg(a))
  {
  }

  /** `<` on the extended reals is a strict order that extends the one on the reals. */
  lemma ExtLessStrictOrder(a: Ext, b: Ext, c: Ext)
    ensures !ExtLess(a, a)
    ensures ExtLess(a, b) ==> !ExtLess(b, a)
    ensures ExtLess(a, b) && ExtLess(b, c) ==> ExtLess(a, c)
    ensures a.Fin? && b.Fin? ==> (ExtLess(a, b) <==> a.v < b.v)
  {
  }
}
