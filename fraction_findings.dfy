/** operator/= of fraction as written, when the divisor is the fraction
    itself (`x /= x`): the numerator is multiplied by the divisor's
    denominator first, and the denominator is then multiplied by the
    divisor's numerator, which by then is the updated one. The quotient of
    a non-zero fraction by itself comes out as 1/den instead of 1. The
    other compound assignments read only fields they have not yet written,
    so only division is affected. Fractions.Divide is the evidently
    intended operator, with the divisor read before any update. */
module FractionFindings {
  import opened Wrappers
  import opened Fractions

  /** `x /= x` as written: both updates read the one object in turn. */
  method DivideAssignSelf(x: Fraction) returns (r: Result<Fraction, FractionError>)
    requires x.den != 0
    ensures x.num == 0 ==> r == Err(DivisionByZero)
    ensures x.num != 0 ==> r.Ok? && Normal(r.value) && Val(r.value) == 1.0 / x.den as real
  {
    if x.num == 0 {
      return Err(DivisionByZero);
    }
    var num := x.num * x.den;
    var den := x.den * num;
    r := Optimise(num, den);
    SelfQuotient(x.num, x.den);
  }

  /** n*d / (d*(n*d)) is 1/d. */
  lemma SelfQuotient(n: int, d: int)
    requires n != 0 && d != 0
    ensures (n * d) as real / (d * (n * d)) as real == 1.0 / d as real
  {
    var m := n * d;
    assert m != 0;
    assert d * m != 0;
    assert (m as real) * (d as real) == (d * m) as real;
  }

  /** The intended quotient of a non-zero fraction by itself is 1. */
  method DivideSelf(x: Fraction) returns (r: Result<Fraction, FractionError>)
    requires x.den != 0 && x.num != 0
    ensures r == Ok(Fraction(1, 1))
  {
    r := Divide(x, x);
    assert Val(x) != 0.0;
    NormalUnique(r.value, Fraction(1, 1));
  }

  /** 1/2 divided by itself in place gives 1/2, while the intended quotient
      is 1. */
  method HalfDividedByItself() returns (written: Result<Fraction, FractionError>, intended: Result<Fraction, FractionError>)
    ensures written == Ok(Fraction(1, 2))
    ensures intended == Ok(Fraction(1, 1))
    ensures written != intended
  {
    var half := Fraction(1, 2);
    written := DivideAssignSelf(half);
    NormalUnique(written.value, half);
    intended := DivideSelf(half);
  }
}
