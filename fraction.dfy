/** fraction: a rational number kept in lowest terms, numerator and
    denominator being big_ints. Each big_int is represented here by its
    integer value: the big_int operations fraction uses (+, -, *, the
    truncating /, the non-negative %, comparison) are proved in BigInts and
    BigIntMulDiv to compute exactly these integer operations. */
module Fractions {
  import opened Wrappers
  import opened BigIntDigits
  import BigIntMulDiv

  datatype Fraction = Fraction(num: int, den: int)

  datatype FractionError = ZeroDenominator | DivisionByZero | InvalidFormat

  function Abs(x: int): nat
  {
    if x < 0 then -x else x
  }

  /** Euclid's algorithm on non-negative numbers. */
  function GcdSpec(a: nat, b: nat): nat
    decreases b
  {
    if b == 0 then a else GcdSpec(b, a % b)
  }

  /** d divides n. */
  predicate Divides(d: nat, n: nat)
  {
    if d == 0 then n == 0 else n % d == 0
  }

  /** The representation invariant optimise establishes: a positive
      denominator, coprime to the numerator (so zero is 0/1). */
  predicate Normal(f: Fraction)
  {
    f.den > 0 && GcdSpec(Abs(f.num), f.den) == 1
  }

  /** The rational number a fraction stands for. */
  function Val(f: Fraction): real
    requires f.den != 0
  {
    f.num as real / f.den as real
  }

  // -------------------------------------------------------------------
  // gcd

  /** gcd: both arguments made non-negative, then Euclid's loop with the
      big_int %, which on non-negative operands is the ordinary remainder. */
  method Gcd(a: int, b: int) returns (g: nat)
    ensures g == GcdSpec(Abs(a), Abs(b))
  {
    var x, y := a, b;
    if x < 0 {
      x := 0 - x;
    }
    if y < 0 {
      y := 0 - y;
    }
    while y != 0
      invariant x >= 0 && y >= 0 && GcdSpec(x, y) == GcdSpec(Abs(a), Abs(b))
      decreases y
    {
      var tmp := y;
      y := x % y;
      x := tmp;
    }
    g := x;
  }

  lemma {:induction false} GcdPositive(a: nat, b: nat)
    requires a > 0 || b > 0
    ensures GcdSpec(a, b) > 0
    decreases b
  {
    if b > 0 {
      GcdPositive(b, a % b);
    }
  }

  lemma SumDivides(d: nat, q: nat, b: nat, r: nat)
    requires d > 0 && b % d == 0 && r % d == 0
    ensures (q * b + r) % d == 0
  {
    var kb, kr := b / d, r / d;
    assert b == d * kb && r == d * kr;
    assert q * b + r == d * (q * kb + kr);
    DivModUnique(q * b + r, d, q * kb + kr, 0);
  }

  lemma DiffDivides(d: nat, q: nat, b: nat, a: nat)
    requires d > 0 && b % d == 0 && a % d == 0 && q * b <= a
    ensures (a - q * b) % d == 0
  {
    var kb, ka := b / d, a / d;
    assert b == d * kb && a == d * ka;
    assert a - q * b == d * (ka - q * kb);
    DivModUnique(a - q * b, d, ka - q * kb, 0);
  }

  /** The gcd divides both numbers. */
  lemma {:induction false} GcdDivides(a: nat, b: nat)
    ensures Divides(GcdSpec(a, b), a) && Divides(GcdSpec(a, b), b)
    decreases b
  {
    if b > 0 {
      GcdDivides(b, a % b);
      var g := GcdSpec(a, b);
      GcdPositive(a, b);
      assert a == (a / b) * b + a % b;
      SumDivides(g, a / b, b, a % b);
    }
  }

  /** Every common divisor divides the gcd, so it is the greatest. */
  lemma {:induction false} GcdGreatest(a: nat, b: nat, d: nat)
    requires d > 0 && a % d == 0 && b % d == 0
    ensures GcdSpec(a, b) % d == 0
    decreases b
  {
    if b > 0 {
      assert a % b == a - (a / b) * b;
      DiffDivides(d, a / b, b, a);
      GcdGreatest(b, a % b, d);
    }
  }

  lemma ScaledRemainder(k: nat, a: nat, b: nat)
    requires k > 0 && b > 0
    ensures (k * a) % (k * b) == k * (a % b)
  {
    var q, r := a / b, a % b;
    assert a == q * b + r;
    assert k * a == q * (k * b) + k * r;
    DivModUnique(k * a, k * b, q, k * r);
  }

  /** Scaling both numbers scales the gcd. */
  lemma {:induction false} GcdScale(k: nat, a: nat, b: nat)
    requires k > 0
    ensures GcdSpec(k * a, k * b) == k * GcdSpec(a, b)
    decreases b
  {
    if b > 0 {
      ScaledRemainder(k, a, b);
      GcdScale(k, b, a % b);
    }
  }

  lemma DividesExactly(g: nat, a: nat)
    requires g > 0 && Divides(g, a)
    ensures a == g * (a / g)
  {
  }

  /** After dividing out the gcd, what is left is coprime. */
  lemma Reduced(a: nat, b: nat, g: nat, a': nat, b': nat)
    requires g > 0 && g == GcdSpec(a, b) && a == g * a' && b == g * b'
    ensures GcdSpec(a', b') == 1
  {
    GcdScale(g, a', b');
    Cancel(g, GcdSpec(a', b'));
  }

  lemma Cancel(g: nat, h: nat)
    requires g > 0 && g * h == g
    ensures h == 1
  {
  }

  // -------------------------------------------------------------------
  // Rationals

  lemma CrossEq(a: int, b: int, c: int, d: int)
    requires b != 0 && d != 0
    ensures a * d == c * b <==> a as real / b as real == c as real / d as real
  {
    var x, y := a as real / b as real, c as real / d as real;
    var bd := (b as real) * (d as real);
    assert x * (b as real) == a as real && y * (d as real) == c as real;
    assert (a * d) as real == x * bd;
    assert (c * b) as real == y * bd;
  }

  lemma CrossLess(a: int, b: int, c: int, d: int)
    requires b > 0 && d > 0
    ensures a * d < c * b <==> a as real / b as real < c as real / d as real
  {
    var x, y := a as real / b as real, c as real / d as real;
    var bd := (b as real) * (d as real);
    assert x * (b as real) == a as real && y * (d as real) == c as real;
    assert (a * d) as real == x * bd;
    assert (c * b) as real == y * bd;
  }

  lemma RealSum(a: int, b: int, c: int, d: int)
    requires b != 0 && d != 0
    ensures (a * d + c * b) as real / (b * d) as real == a as real / b as real + c as real / d as real
  {
    var x, y := a as real / b as real, c as real / d as real;
    assert x * (b as real) == a as real && y * (d as real) == c as real;
    assert (x + y) * ((b * d) as real) == (a * d + c * b) as real;
  }

  lemma RealDifference(a: int, b: int, c: int, d: int)
    requires b != 0 && d != 0
    ensures (a * d - c * b) as real / (b * d) as real == a as real / b as real - c as real / d as real
  {
    var x, y := a as real / b as real, c as real / d as real;
    assert x * (b as real) == a as real && y * (d as real) == c as real;
    assert (x - y) * ((b * d) as real) == (a * d - c * b) as real;
  }

  lemma RealProduct(a: int, b: int, c: int, d: int)
    requires b != 0 && d != 0
    ensures (a * c) as real / (b * d) as real == (a as real / b as real) * (c as real / d as real)
  {
    var x, y := a as real / b as real, c as real / d as real;
    assert x * (b as real) == a as real && y * (d as real) == c as real;
    assert (x * y) * ((b * d) as real) == (a * c) as real;
  }

  lemma RealQuotient(a: int, b: int, c: int, d: int)
    requires b != 0 && d != 0 && c != 0
    ensures (a * d) as real / (b * c) as real == (a as real / b as real) / (c as real / d as real)
  {
    var x, y := a as real / b as real, c as real / d as real;
    assert x * (b as real) == a as real && y * (d as real) == c as real;
    assert y != 0.0;
    assert (x / y) * ((b * c) as real) == (a * d) as real;
  }

  // -------------------------------------------------------------------
  // optimise and the constructor

  /** The signs of the reduced pair follow the signs of the original. */
  lemma ReducedValue(num: int, den: int, g: nat, n: int, d: int)
    requires g > 0 && den != 0 && Divides(g, Abs(num)) && Divides(g, Abs(den))
    requires n == BigIntMulDiv.TruncDiv(num, g) && d == BigIntMulDiv.TruncDiv(den, g)
    ensures Abs(n) == Abs(num) / g && Abs(d) == Abs(den) / g && d != 0
    ensures n * den == num * d
  {
    var a, b := Abs(num) / g, Abs(den) / g;
    assert Abs(num) == g * a && Abs(den) == g * b;
    assert BigIntMulDiv.Magnitude(num) == Abs(num) && BigIntMulDiv.Magnitude(g) == g && BigIntMulDiv.Magnitude(den) == Abs(den);
    assert n == (if num < 0 then -a else a);
    assert d == (if den < 0 then -b else b);
    assert b != 0;
  }

  /** Dividing both by their gcd leaves a coprime pair of the same ratio. */
  lemma ReduceFacts(num: int, den: int, g: nat, n: int, d: int)
    requires num != 0 && den != 0 && g == GcdSpec(Abs(num), Abs(den)) && g > 0
    requires n == BigIntMulDiv.TruncDiv(num, g) && d == BigIntMulDiv.TruncDiv(den, g)
    ensures d != 0 && GcdSpec(Abs(n), Abs(d)) == 1 && n * den == num * d
  {
    GcdDivides(Abs(num), Abs(den));
    DividesExactly(g, Abs(num));
    DividesExactly(g, Abs(den));
    Reduced(Abs(num), Abs(den), g, Abs(num) / g, Abs(den) / g);
    ReducedValue(num, den, g, n, d);
  }

  /** optimise: a zero denominator is an error; a zero numerator gives
      0/1; otherwise both are divided by their gcd and the signs moved so
      that the denominator is positive. */
  method Optimise(num: int, den: int) returns (r: Result<Fraction, FractionError>)
    ensures den == 0 ==> r == Err(ZeroDenominator)
    ensures den != 0 ==> r.Ok? && Normal(r.value) && Val(r.value) == num as real / den as real
  {
    if den == 0 {
      return Err(ZeroDenominator);
    }
    if num == 0 {
      r := Ok(Zero());
      CrossEq(0, 1, num, den);
      return;
    }
    var g := Gcd(num, den);
    GcdPositive(Abs(num), Abs(den));
    var n := BigIntMulDiv.TruncDiv(num, g);
    var d := BigIntMulDiv.TruncDiv(den, g);
    ReduceFacts(num, den, g, n, d);
    if d < 0 {
      NegateBoth(n, d, num, den);
      n := 0 - n;
      d := 0 - d;
    }
    r := Ok(Fraction(n, d));
    CrossEq(n, d, num, den);
  }

  lemma NegateBoth(n: int, d: int, num: int, den: int)
    requires n * den == num * d
    ensures (0 - n) * den == num * (0 - d) && Abs(0 - n) == Abs(n) && Abs(0 - d) == Abs(d)
  {
  }

  /** The constructor from a numerator and a denominator. */
  method Make(num: int, den: int) returns (r: Result<Fraction, FractionError>)
    ensures den == 0 ==> r == Err(ZeroDenominator)
    ensures den != 0 ==> r.Ok? && Normal(r.value) && Val(r.value) == num as real / den as real
  {
    if den == 0 {
      return Err(ZeroDenominator);
    }
    r := Optimise(num, den);
  }

  /** The default constructor: 0/1. */
  function Zero(): (r: Fraction)
    ensures Normal(r) && Val(r) == 0.0
  {
    assert GcdSpec(0, 1) == 1;
    Fraction(0, 1)
  }

  /** A normal fraction is the only normal one of its value, so comparing
      fields (operator==) compares values. */
  lemma NormalUnique(x: Fraction, y: Fraction)
    requires Normal(x) && Normal(y) && Val(x) == Val(y)
    ensures x == y
  {
    CrossEq(x.num, x.den, y.num, y.den);
    var a, b := Abs(x.num), Abs(y.num);
    assert a * y.den == b * x.den by {
      assert (x.num < 0) == (y.num < 0) by {
        SignOfCross(x.num, x.den, y.num, y.den);
      }
    }
    DenominatorDivides(a, x.den, b, y.den);
    DenominatorDivides(b, y.den, a, x.den);
    SameMultiple(x.den, y.den);
    assert a * x.den == b * x.den;
  }

  lemma SignOfCross(a: int, b: int, c: int, d: int)
    requires b > 0 && d > 0 && a * d == c * b
    ensures (a < 0) == (c < 0)
  {
  }

  lemma MultipleMod(b: nat, c: nat)
    requires b > 0
    ensures (b * c) % b == 0
  {
    DivModUnique(b * c, b, c, 0);
  }

  /** When a/b == c/d with a, b coprime, b divides d. */
  lemma DenominatorDivides(a: nat, b: nat, c: nat, d: nat)
    requires b > 0 && d > 0 && GcdSpec(a, b) == 1 && a * d == c * b
    ensures d % b == 0
  {
    MultipleMod(b, c);
    MultipleMod(b, d);
    CommonDivisor(a, b, c, d, d * a, d * b);
  }

  lemma CommonDivisor(a: nat, b: nat, c: nat, d: nat, x: nat, y: nat)
    requires b > 0 && d > 0 && GcdSpec(a, b) == 1
    requires x == d * a == b * c && y == d * b && (b * c) % b == 0 && (b * d) % b == 0
    ensures d % b == 0
  {
    GcdScale(d, a, b);
    GcdGreatest(x, y, b);
  }

  lemma SameMultiple(b: nat, d: nat)
    requires b > 0 && d > 0 && d % b == 0 && b % d == 0
    ensures b == d
  {
  }

  /** operator==: numerators and denominators compared. */
  function Equals(x: Fraction, y: Fraction): (r: bool)
    ensures Normal(x) && Normal(y) ==> (r <==> Val(x) == Val(y))
  {
    if Normal(x) && Normal(y) && Val(x) == Val(y) then
      NormalUnique(x, y);
      x.num == y.num && x.den == y.den
    else
      x.num == y.num && x.den == y.den
  }

  datatype Ordering = Less | Equivalent | Greater

  /** operator<=>: n1 * d2 against d1 * n2. */
  function Compare(x: Fraction, y: Fraction): (r: Ordering)
    ensures x.den > 0 && y.den > 0 ==>
      (r == Less <==> Val(x) < Val(y)) && (r == Equivalent <==> Val(x) == Val(y)) && (r == Greater <==> Val(x) > Val(y))
  {
    var l, rv := x.num * y.den, x.den * y.num;
    if x.den > 0 && y.den > 0 then
      CrossLess(x.num, x.den, y.num, y.den);
      CrossLess(y.num, y.den, x.num, x.den);
      CrossEq(x.num, x.den, y.num, y.den);
      if l < rv then Less else if l > rv then Greater else Equivalent
    else
      if l < rv then Less else if l > rv then Greater else Equivalent
  }

  // -------------------------------------------------------------------
  // Arithmetic

  /** operator+= (and operator+, which copies and delegates). */
  method Add(x: Fraction, y: Fraction) returns (r: Fraction)
    requires x.den != 0 && y.den != 0
    ensures Normal(r) && Val(r) == Val(x) + Val(y)
  {
    var num := x.num * y.den + x.den * y.num;
    var den := x.den * y.den;
    var o := Optimise(num, den);
    r := o.value;
    RealSum(x.num, x.den, y.num, y.den);
  }

  /** operator-= (and operator-). */
  method Subtract(x: Fraction, y: Fraction) returns (r: Fraction)
    requires x.den != 0 && y.den != 0
    ensures Normal(r) && Val(r) == Val(x) - Val(y)
  {
    var num := x.num * y.den - x.den * y.num;
    var den := x.den * y.den;
    var o := Optimise(num, den);
    r := o.value;
    RealDifference(x.num, x.den, y.num, y.den);
  }

  /** operator*= (and operator*). */
  method Multiply(x: Fraction, y: Fraction) returns (r: Fraction)
    requires x.den != 0 && y.den != 0
    ensures Normal(r) && Val(r) == Val(x) * Val(y)
  {
    var o := Optimise(x.num * y.num, x.den * y.den);
    r := o.value;
    RealProduct(x.num, x.den, y.num, y.den);
  }

  /** operator/= (and operator/): a divisor with a zero numerator is an
      error. */
  method Divide(x: Fraction, y: Fraction) returns (r: Result<Fraction, FractionError>)
    requires x.den != 0 && y.den != 0
    ensures y.num == 0 ==> r == Err(DivisionByZero)
    ensures y.num != 0 ==> r.Ok? && Normal(r.value) && Val(r.value) == Val(x) / Val(y)
  {
    if y.num == 0 {
      return Err(DivisionByZero);
    }
    r := Optimise(x.num * y.den, x.den * y.num);
    RealQuotient(x.num, x.den, y.num, y.den);
  }

  /** Unary operator-: the numerator negated, then optimised. */
  method Negate(x: Fraction) returns (r: Fraction)
    requires x.den != 0
    ensures Normal(r) && Val(r) == -Val(x)
  {
    var o := Optimise(0 - x.num, x.den);
    r := o.value;
    assert (0 - x.num) as real / x.den as real == -(x.num as real / x.den as real);
  }

  /** Negating twice gives the fraction back. */
  lemma NegateNegate(x: Fraction, y: Fraction, z: Fraction)
    requires Normal(x) && Normal(y) && Normal(z) && Val(y) == -Val(x) && Val(z) == -Val(y)
    ensures z == x
  {
    NormalUnique(z, x);
  }

  // -------------------------------------------------------------------
  // pow

  function Power(b: real, n: nat): real
  {
    if n == 0 then 1.0 else b * Power(b, n - 1)
  }

  /** The square-and-multiply step. */
  lemma {:induction false} PowerHalves(b: real, n: nat)
    ensures Power(b, n) == (if n % 2 == 1 then b else 1.0) * Power(b * b, n / 2)
    decreases n
  {
    if n >= 2 {
      PowerHalves(b, n - 2);
      assert (n - 2) / 2 == n / 2 - 1 && (n - 2) % 2 == n % 2;
      assert Power(b, n) == (b * b) * Power(b, n - 2);
    }
  }

  /** pow: 1/1 for degree zero, otherwise square-and-multiply. */
  method Pow(x: Fraction, degree: nat) returns (r: Fraction)
    requires x.den != 0
    ensures Normal(r) && Val(r) == Power(Val(x), degree)
  {
    var one := Make(1, 1);
    if degree == 0 {
      return one.value;
    }
    var base := x;
    r := one.value;
    var k := degree;
    while k > 0
      invariant base.den != 0 && Normal(r)
      invariant Val(r) * Power(Val(base), k) == Power(Val(x), degree)
    {
      ghost var b := Val(base);
      PowerHalves(b, k);
      if k % 2 == 1 {
        r := Multiply(r, base);
      }
      base := Multiply(base, base);
      assert Val(base) == b * b;
      k := k / 2;
    }
  }
}
