/** The exponential, as a parameter: what the eased motions need to know of it. */
module Exponential {

  ghost predicate IsExp(e: real -> real) {
    && e(0.0) == 1.0
    && (forall x :: e(x) > 0.0)
    && (forall a, b :: SumRule(e, a, b))
  }

  ghost predicate SumRule(e: real -> real, a: real, b: real) {
    e(a + b) == e(a) * e(b)
  }

  /** The exponential lies above its tangent at 0. */
  ghost predicate AboveTangent(e: real -> real) {
    forall x :: e(x) >= 1.0 + x
  }

  lemma Sum(e: real -> real, a: real, b: real)
    requires IsExp(e)
    ensures e(a + b) == e(a) * e(b)
  {
    assert SumRule(e, a, b);
  }

  lemma Inverse(e: real -> real, x: real)
    requires IsExp(e)
    ensures e(-x) * e(x) == 1.0
  {
    assert SumRule(e, -x, x);
  }
}
