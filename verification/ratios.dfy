/** Efficiency and purity figures as exact fractions of counts. The source
    divides in floating point (`len(a) / len(b)` in Python, `a / b` on
    tensors); a fraction keeps numerator and denominator, and `Value` is the
    real number the floating-point division approximates. */
module Ratios {

  /** `part / whole`. */
  datatype Fraction = Fraction(part: nat, whole: nat)

  /** The fraction is a proportion: a part of a nonzero whole. */
  predicate Proportion(f: Fraction)
  {
    0 < f.whole && f.part <= f.whole
  }

  /** The real number `part / whole`. */
  function Value(f: Fraction): (r: real)
    requires f.whole > 0
    ensures 0.0 <= r
    ensures f.part <= f.whole ==> r <= 1.0
    ensures r == 1.0 <==> f.part == f.whole
    ensures r == 0.0 <==> f.part == 0
  {
    var r := f.part as real / f.whole as real;
    assert r * f.whole as real == f.part as real;
    r
  }
}
