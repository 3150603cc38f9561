/**
 * The tolerance comparisons of src/Voronoi.js (`equalWithEpsilon` and its siblings,
 * each with a second operand that defaults to 0) and the snapping of coordinates to
 * the tolerance grid that `quantizeSites` performs.
 */
module Epsilon {
  import opened Extended

  /** Voronoi.ε. */
  const Eps: real := 0.000000001

  /** Voronoi.invε. */
  const InvEps: real := 1.0 / Eps

  /** equalWithEpsilon: `|a - b| < ε`. */
  predicate EqualWithEpsilon(a: real, b: real)
  {
    (if a - b < 0.0 then b - a else a - b) < Eps
  }

  /** greaterThanEpsilon: `a - b > ε`. */
  predicate GreaterThanEpsilon(a: real, b: real)
  {
    a - b > Eps
  }

  /** greaterThanOrEqualWithEpsilon: `b - a < ε`. */
  predicate GreaterThanOrEqualWithEpsilon(a: real, b: real)
  {
    b - a < Eps
  }

  /** lessThanEpsilon: `b - a > ε`. */
  predicate LessThanEpsilon(a: real, b: real)
  {
    b - a > Eps
  }

  /** lessThanOrEqualWithEpsilon: `a - b < ε`. */
  predicate LessThanOrEqualWithEpsilon(a: real, b: real)
  {
    a - b < Eps
  }

  /**
   * How the tolerance comparisons relate: "equal" is "at least" and "at most" at once;
   * "greater" rules out "at most" and "less" rules out "at least"; "less" is "greater"
   * with the operands swapped; no two of "less", "equal", "greater" hold together.
   */
  lemma ComparisonsAgree(a: real, b: real)
    ensures EqualWithEpsilon(a, b) <==> GreaterThanOrEqualWithEpsilon(a, b) && LessThanOrEqualWithEpsilon(a, b)
    ensures GreaterThanEpsilon(a, b) ==> !LessThanOrEqualWithEpsilon(a, b)
    ensures LessThanEpsilon(a, b) ==> !GreaterThanOrEqualWithEpsilon(a, b)
    ensures LessThanEpsilon(a, b) <==> GreaterThanEpsilon(b, a)
    ensures EqualWithEpsilon(a, b) <==> EqualWithEpsilon(b, a)
    ensures !(EqualWithEpsilon(a, b) && GreaterThanEpsilon(a, b))
    ensures !(EqualWithEpsilon(a, b) && LessThanEpsilon(a, b))
    ensures !(GreaterThanEpsilon(a, b) && LessThanEpsilon(a, b))
  {
  }

  /** greaterThanEpsilon(a) on a number that may be infinite: `a - 0 > ε`. */
  predicate GreaterThanEpsilonExt(a: Ext)
  {
    ExtLess(Fin(Eps), a)
  }

  /** lessThanEpsilon(a) on a number that may be infinite: `0 - a > ε`. */
  predicate LessThanEpsilonExt(a: Ext)
  {
    ExtLess(Fin(Eps), ExtNeg(a))
  }

  /** On finite numbers the extended comparisons are the plain ones against 0. */
  lemma ExtComparisonsFinite(a: real)
    ensures GreaterThanEpsilonExt(Fin(a)) <==> GreaterThanEpsilon(a, 0.0)
    ensures LessThanEpsilonExt(Fin(a)) <==> LessThanEpsilon(a, 0.0)
  {
  }

  /** `v` snapped down to the ε grid: `Math.floor(v / ε) * ε`. */
  function Quantize(v: real): (q: real)
    ensures q <= v < q + Eps
  {
    var k := (v / Eps).Floor;
    assert k as real <= v / Eps < k as real + 1.0;
    FloorScale(v, k);
    k as real * Eps
  }

  /** Multiplying `floor(v / ε) <= v / ε < floor(v / ε) + 1` through by ε. */
  lemma FloorScale(v: real, k: int)
    requires k as real <= v / Eps < k as real + 1.0
    ensures k as real * Eps <= v < k as real * Eps + Eps
  {
    assert v == (v / Eps) * Eps;
  }

  /** Quantizing twice is quantizing once: grid points stay where they are. */
  lemma {:induction false} QuantizeIdempotent(v: real)
    ensures Quantize(Quantize(v)) == Quantize(v)
  {
    var k := (v / Eps).Floor;
    var q := k as real * Eps;
    assert q == Quantize(v);
    assert q / Eps == k as real;
    assert (q / Eps).Floor == k;
  }
}
