/** multiply_assign (the schoolbook rule), divide_assign and modulo_assign
    of big_int: a row of carries per digit of this, and a long division
    whose quotient digits are found by binary search over [0, BASE]. */
module BigIntMulDiv {
  import opened Wrappers
  import opened Powers
  import opened BigIntDigits
  import opened BigInts

  datatype DivError = DivisionByZero

  // -------------------------------------------------------------------
  // Multiplication

  lemma MagCons(d: Digit, ds: seq<Digit>)
    ensures Mag([d] + ds) == d + Base * Mag(ds)
  {
    assert ([d] + ds)[1..] == ds;
  }

  /** Writing v at position k moves the magnitude by (v - ds[k]) * Base^k. */
  lemma MagSet(ds: seq<Digit>, k: nat, v: Digit)
    requires k < |ds|
    ensures Mag(ds[k := v]) + ds[k] * Place(k) == Mag(ds) + v * Place(k)
  {
    var lo, hi := ds[..k], ds[k + 1..];
    assert ds == lo + ([ds[k]] + hi);
    assert ds[k := v] == lo + ([v] + hi);
    MagConcat(lo, [ds[k]] + hi);
    MagConcat(lo, [v] + hi);
    MagCons(ds[k], hi);
    MagCons(v, hi);
    var p, h := Place(k), Base * Mag(hi);
    assert p * (ds[k] + h) == ds[k] * p + p * h;
    assert p * (v + h) == v * p + p * h;
  }

  /** The 64-bit product of multiply_assign cannot overflow. */
  lemma ProdFits(d: Digit, c: nat, x: Digit, y: Digit)
    requires c < Base
    ensures d + c + x * y < Base * Base
  {
    MulLe(x, Base - 1, y);
    MulLe(y, Base - 1, Base - 1);
  }

  lemma MulArith(m: int, m': int, d: int, v: int, c: int, c': int, prod: int, x: int, y: int,
                 r0: int, yl: int, yl': int, p1: int, p2: int, p: int, pn: int)
    requires m' + d * p == m + v * p
    requires prod == d + c + x * y && prod == v + Base * c'
    requires m + c * p == r0 + x * yl * p1
    requires yl' == yl + y * p2 && p == p1 * p2 && pn == Base * p
    ensures m' + c' * pn == r0 + x * yl' * p1
  {
    assert m' + c' * pn == m + (v + Base * c') * p - d * p;
    assert (v + Base * c') * p - d * p == (c + x * y) * p;
    assert (c + x * y) * p == c * p + x * y * (p1 * p2);
    assert x * yl' * p1 == x * yl * p1 + x * y * (p1 * p2);
  }

  /** The bound that keeps every write of a row inside the result. */
  lemma RowFits(total: nat, carry: nat, k: nat, n: nat)
    requires carry > 0 && carry * Place(k) <= total < Place(n)
    ensures k < n
  {
    MulLe(1, carry, Place(k));
    if k >= n {
      PlaceMonotonic(n, k);
    }
  }

  /** One pass of the inner loop of multiply_assign: position i + j takes
      the low half of its digit plus the carry plus x * ys[j] (nothing past
      the end of ys), and the high half is carried on. */
  method MulStep(res: seq<Digit>, x: Digit, ys: seq<Digit>, i: nat, j: nat, carry: nat,
                 ghost res0: seq<Digit>) returns (res': seq<Digit>, carry': nat)
    requires i + j < |res| && carry < Base
    requires Mag(res) + carry * Place(i + j) == Mag(res0) + x * Mag(ys[..Min(j, |ys|)]) * Place(i)
    ensures |res'| == |res| && carry' < Base
    ensures Mag(res') + carry' * Place(i + j + 1) == Mag(res0) + x * Mag(ys[..Min(j + 1, |ys|)]) * Place(i)
  {
    var y: Digit := if j < |ys| then ys[j] else 0;
    ProdFits(res[i + j], carry, x, y);
    var prod := res[i + j] + carry + x * y;
    res' := res[i + j := prod % Base];
    carry' := prod / Base;
    MulStepMag(res, x, ys, i, j, carry, res0, y, prod);
  }

  lemma MulStepMag(res: seq<Digit>, x: Digit, ys: seq<Digit>, i: nat, j: nat, carry: nat,
                   res0: seq<Digit>, y: Digit, prod: nat)
    requires i + j < |res| && y == (if j < |ys| then ys[j] else 0) && prod == res[i + j] + carry + x * y
    requires Mag(res) + carry * Place(i + j) == Mag(res0) + x * Mag(ys[..Min(j, |ys|)]) * Place(i)
    ensures Mag(res[i + j := prod % Base]) + (prod / Base) * Place(i + j + 1)
         == Mag(res0) + x * Mag(ys[..Min(j + 1, |ys|)]) * Place(i)
  {
    var v, p := prod % Base, Place(i + j);
    var yl, yl' := Mag(ys[..Min(j, |ys|)]), Mag(ys[..Min(j + 1, |ys|)]);
    assert Mag(res[i + j := v]) + res[i + j] * p == Mag(res) + v * p by {
      MagSet(res, i + j, v);
    }
    assert yl' == yl + y * Place(j) by {
      MagPrefixPadded(ys, j);
    }
    assert p == Place(i) * Place(j) && Place(i + j + 1) == Base * p by {
      PlaceNext(i + j);
      PlaceAdd(i, j);
    }
    MulArith(Mag(res), Mag(res[i + j := v]), res[i + j], v, carry, prod / Base, prod, x, y,
      Mag(res0), yl, yl', Place(i), Place(j), p, Place(i + j + 1));
  }

  /** The inner loop of multiply_assign for digit i of this: x times the
      other's digits added into the result from position i on, the carry
      running on past the other's last digit until it is spent. */
  method MulRow(res: seq<Digit>, x: Digit, ys: seq<Digit>, i: nat) returns (res': seq<Digit>)
    requires i + |ys| <= |res|
    requires Mag(res) + x * Mag(ys) * Place(i) < Place(|res|)
    ensures |res'| == |res| && Mag(res') == Mag(res) + x * Mag(ys) * Place(i)
  {
    res' := res;
    var carry: nat := 0;
    var j := 0;
    assert ys[..0] == [];
    while j < |ys| || carry > 0
      invariant |res'| == |res| && carry < Base
      invariant j <= |ys| || i + j <= |res|
      invariant Mag(res') + carry * Place(i + j) == Mag(res) + x * Mag(ys[..Min(j, |ys|)]) * Place(i)
      decreases |res| - (i + j), |ys| - j
    {
      assert i + j < |res| by {
        if j >= |ys| {
          assert ys[..Min(j, |ys|)] == ys;
          RowFits(Mag(res') + carry * Place(i + j), carry, i + j, |res|);
        }
      }
      res', carry := MulStep(res', x, ys, i, j, carry, res);
      j := j + 1;
    }
    assert ys[..Min(j, |ys|)] == ys;
  }

  lemma ProductBelow(a: nat, b: nat, pa: nat, pb: nat)
    requires a < pa && b < pb
    ensures a * b < pa * pb
  {
    MulLe(a, pa - 1, b);
    MulLe(b, pb - 1, pa - 1);
    assert (pa - 1) * (pb - 1) < pa * pb;
  }

  /** Row i of the schoolbook product adds digit i of xs times ys. */
  lemma RowStep(xs: seq<Digit>, ys: seq<Digit>, i: nat)
    requires i < |xs|
    ensures Mag(xs[..i]) * Mag(ys) + xs[i] * Mag(ys) * Place(i) == Mag(xs[..i + 1]) * Mag(ys)
  {
    MagPrefix(xs, i);
    Distribute(Mag(xs[..i]), xs[i], Place(i), Mag(ys));
  }

  lemma Distribute(lo: nat, d: nat, p: nat, m: nat)
    ensures (lo + d * p) * m == lo * m + d * m * p
  {
  }

  /** Every row fits in the |xs| + |ys| digits of the result. */
  lemma RowBelow(xs: seq<Digit>, ys: seq<Digit>, i: nat)
    requires i < |xs|
    ensures Mag(xs[..i + 1]) * Mag(ys) < Place(|xs| + |ys|)
  {
    MagBound(xs[..i + 1]);
    MagBound(ys);
    ProductBelow(Mag(xs[..i + 1]), Mag(ys), Place(i + 1), Place(|ys|));
    PlaceAdd(i + 1, |ys|);
    PlaceMonotonic(i + 1 + |ys|, |xs| + |ys|);
  }

  /** The schoolbook loop of multiply_assign: |xs| + |ys| zero digits, then
      one row per digit of xs. */
  method MulDigits(xs: seq<Digit>, ys: seq<Digit>) returns (res: seq<Digit>)
    ensures |res| == |xs| + |ys| && Mag(res) == Mag(xs) * Mag(ys)
  {
    res := Zeros(|xs| + |ys|);
    MagZeros(|xs| + |ys|);
    for i := 0 to |xs|
      invariant |res| == |xs| + |ys|
      invariant Mag(res) == Mag(xs[..i]) * Mag(ys)
    {
      RowStep(xs, ys, i);
      RowBelow(xs, ys, i);
      res := MulRow(res, xs[i], ys, i);
    }
    assert xs[..|xs|] == xs;
  }

  lemma SignedProduct(a: BigInt, b: BigInt, m: int)
    requires m == Mag(a.digits) * Mag(b.digits)
    ensures (if a.sign == b.sign then m else -m) == Value(a) * Value(b)
  {
  }

  /** multiply_assign with the schoolbook rule: a zero this is returned as
      it is, a zero other gives non-negative zero, and otherwise the
      product of the magnitudes, optimised, with sign (signs equal). */
  method Multiply(a: BigInt, b: BigInt) returns (r: BigInt)
    requires Wf(a) && Wf(b)
    ensures Wf(r) && Value(r) == Value(a) * Value(b)
    ensures IsZero(a.digits) ==> r == a
    ensures !IsZero(a.digits) ==> Normal(r)
  {
    if IsZero(a.digits) {
      ZeroMag(a.digits);
      return a;
    }
    if IsZero(b.digits) {
      ZeroMag(b.digits);
      ZeroMag([0]);
      return BigInt([0], true);
    }
    var ds := MulDigits(a.digits, b.digits);
    ds := Optimise(ds);
    MagZeroIff(a.digits);
    MagZeroIff(b.digits);
    MagZeroIff(ds);
    SignedProduct(a, b, Mag(ds));
    r := BigInt(ds, a.sign == b.sign);
  }

  // -------------------------------------------------------------------
  // Division

  /** A big_int that is normal and non-negative stands for its magnitude. */
  lemma NonNegative(a: BigInt)
    requires Normal(a) && Value(a) >= 0
    ensures a.sign && Value(a) == Mag(a.digits)
  {
    if !a.sign {
      MagZeroIff(a.digits);
    }
  }

  lemma ProductValue(absB: BigInt, factor: BigInt, temp: BigInt, k: nat)
    requires absB.sign && Value(factor) == k && Value(temp) == Value(absB) * Value(factor)
    ensures Value(temp) == k * Mag(absB.digits)
  {
    assert Value(absB) == Mag(absB.digits);
  }

  /** One probe of the binary search: does |other| * mid still fit in the
      remainder? */
  method Fits(rem: BigInt, absB: BigInt, mid: nat) returns (fits: bool)
    requires Normal(rem) && rem.sign && Normal(absB) && absB.sign
    ensures fits <==> mid * Mag(absB.digits) <= Mag(rem.digits)
  {
    var factor := FromInt(mid);
    var temp := Multiply(absB, factor);
    ProductValue(absB, factor, temp, mid);
    var c := Compare(rem, temp);
    assert c == Cmp(Mag(rem.digits), mid * Mag(absB.digits));
    fits := c != Less;
  }

  /** The binary search of divide_assign and modulo_assign: the largest q
      in [0, BASE] with |other| * q <= remain. Zero always fits, so `right`
      never drops below zero and `mid - 1` never wraps. */
  method QuotientDigit(rem: BigInt, absB: BigInt) returns (q: nat)
    requires Normal(rem) && rem.sign && Normal(absB) && absB.sign && Mag(absB.digits) > 0
    requires Mag(rem.digits) < Base * Mag(absB.digits)
    ensures q < Base && q * Mag(absB.digits) <= Mag(rem.digits) < (q + 1) * Mag(absB.digits)
  {
    ghost var m, rv := Mag(absB.digits), Mag(rem.digits);
    var left: nat, right: nat := 0, Base;
    q := 0;
    while left <= right
      invariant left <= right + 1 && right <= Base
      invariant q * m <= rv && (left == 0 || q == left - 1)
      invariant rv < (right + 1) * m
      decreases right - left
    {
      var mid := left + (right - left) / 2;
      var fits := Fits(rem, absB, mid);
      if fits {
        q := mid;
        left := mid + 1;
      } else {
        right := mid - 1;
      }
    }
  }

  /** One step of the long division: the next digit enters the remainder
      from below and a quotient digit is taken off. */
  lemma DivStep(d: Digit, qs: nat, r: nat, m: nat, q: nat, r': nat)
    requires q * m + r' == d + Base * r
    ensures d + Base * (qs * m + r) == (q + Base * qs) * m + r'
  {
    assert Base * (qs * m) == (Base * qs) * m;
  }

  /** The next digit is inserted below the remainder, which is then
      optimised; the remainder stays non-negative. */
  method BringDown(d: Digit, rem: BigInt) returns (rem': BigInt)
    requires Normal(rem) && rem.sign
    ensures Normal(rem') && rem'.sign && Mag(rem'.digits) == d + Base * Mag(rem.digits)
  {
    var rd := [d] + rem.digits;
    MagCons(d, rem.digits);
    rd := Optimise(rd);
    rem' := BigInt(rd, true);
  }

  /** remain -= |other| * q, skipped when q is zero. */
  method TakeOff(rem: BigInt, absB: BigInt, q: nat) returns (rem': BigInt)
    requires Normal(rem) && rem.sign && Normal(absB) && absB.sign
    requires q * Mag(absB.digits) <= Mag(rem.digits)
    ensures Normal(rem') && rem'.sign && Mag(rem'.digits) == Mag(rem.digits) - q * Mag(absB.digits)
  {
    rem' := rem;
    if q > 0 {
      var factor := FromInt(q);
      var temp := Multiply(absB, factor);
      ProductValue(absB, factor, temp, q);
      rem' := MinusAssign(rem, temp);
      if IsZero(temp.digits) {
        ZeroMag(temp.digits);
      }
      NonNegative(rem');
    }
  }

  /** One pass of the loop: digit i of the dividend is brought down, the
      quotient digit found and stored, its multiple taken off. */
  method DivRound(ds: seq<Digit>, i: nat, quot: seq<Digit>, rem: BigInt, absB: BigInt)
    returns (quot': seq<Digit>, rem': BigInt)
    requires i < |ds| == |quot| && Normal(rem) && rem.sign && Normal(absB) && absB.sign
    requires Mag(ds[i + 1..]) == Mag(quot[i + 1..]) * Mag(absB.digits) + Mag(rem.digits)
    requires Mag(rem.digits) < Mag(absB.digits)
    ensures |quot'| == |ds| && Normal(rem') && rem'.sign
    ensures Mag(ds[i..]) == Mag(quot'[i..]) * Mag(absB.digits) + Mag(rem'.digits)
    ensures Mag(rem'.digits) < Mag(absB.digits)
  {
    ghost var m, oldQ, oldR := Mag(absB.digits), Mag(quot[i + 1..]), Mag(rem.digits);
    var mid := BringDown(ds[i], rem);
    assert Mag(mid.digits) < Base * m by {
      MulLe(oldR + 1, m, Base);
    }
    var q := QuotientDigit(mid, absB);
    rem' := TakeOff(mid, absB, q);
    quot' := quot[i := q];
    assert quot'[i..] == [q as Digit] + quot[i + 1..];
    MagCons(q, quot[i + 1..]);
    assert ds[i..] == [ds[i]] + ds[i + 1..];
    MagCons(ds[i], ds[i + 1..]);
    DivStep(ds[i], oldQ, oldR, m, q, Mag(rem'.digits));
  }

  /** The loop divide_assign and modulo_assign share: from the top digit
      down, the digit is brought down into the remainder and the largest
      multiple of |other| that fits is taken off, its factor becoming the
      quotient digit. */
  method LongDivision(ds: seq<Digit>, absB: BigInt) returns (quot: seq<Digit>, rem: BigInt)
    requires Normal(absB) && absB.sign && Mag(absB.digits) > 0
    ensures |quot| == |ds| && Normal(rem) && rem.sign
    ensures Mag(ds) == Mag(quot) * Mag(absB.digits) + Mag(rem.digits) && Mag(rem.digits) < Mag(absB.digits)
  {
    quot := Zeros(|ds|);
    rem := BigInt([0], true);
    ZeroMag([0]);
    var i := |ds|;
    while i > 0
      invariant 0 <= i <= |ds| && |quot| == |ds| && Normal(rem) && rem.sign
      invariant Mag(ds[i..]) == Mag(quot[i..]) * Mag(absB.digits) + Mag(rem.digits)
      invariant Mag(rem.digits) < Mag(absB.digits)
    {
      i := i - 1;
      quot, rem := DivRound(ds, i, quot, rem, absB);
    }
    assert ds[0..] == ds && quot[0..] == quot;
  }

  /** C++ integer division: the quotient rounded toward zero. */
  function TruncDiv(x: int, y: int): int
    requires y != 0
  {
    var q := Magnitude(x) / Magnitude(y);
    if (x < 0) == (y < 0) then q else -q
  }

  /** The remainder that goes with TruncDiv. */
  function TruncRem(x: int, y: int): int
    requires y != 0
  {
    x - TruncDiv(x, y) * y
  }

  function Magnitude(x: int): nat
  {
    if x < 0 then -x else x
  }

  /** What rounding toward zero means: the remainder is smaller than the
      divisor and never has the opposite sign of the dividend. */
  lemma TruncDivMeaning(x: int, y: int)
    requires y != 0
    ensures Magnitude(TruncRem(x, y)) < Magnitude(y)
    ensures x >= 0 ==> TruncRem(x, y) >= 0
    ensures x <= 0 ==> TruncRem(x, y) <= 0
  {
    var mx, my := Magnitude(x), Magnitude(y);
    var q, r := mx / my, mx % my;
    assert mx == q * my + r;
    QuotientTimesDivisor(x, y, q);
  }

  lemma QuotientTimesDivisor(x: int, y: int, q: nat)
    requires y != 0 && q == Magnitude(x) / Magnitude(y)
    ensures TruncDiv(x, y) * y == (if x < 0 then -(q * Magnitude(y)) else q * Magnitude(y))
  {
    if y < 0 {
      assert TruncDiv(x, y) * y == (-TruncDiv(x, y)) * Magnitude(y);
    }
  }

  /** divide_assign: a zero this is returned as it is, before the divisor
      is looked at (so 0 / 0 is 0); a zero divisor is an error; |this| <
      |other| gives non-negative zero; otherwise the long division, with
      sign (signs equal): the quotient rounded toward zero. */
  method Divide(a: BigInt, b: BigInt) returns (r: Result<BigInt, DivError>)
    requires Wf(a) && Wf(b)
    ensures IsZero(a.digits) ==> r == Ok(a)
    ensures !IsZero(a.digits) && IsZero(b.digits) ==> r == Err(DivisionByZero)
    ensures !IsZero(a.digits) && Value(b) != 0 ==>
      r.Ok? && Normal(r.value) && Value(r.value) == TruncDiv(Value(a), Value(b))
  {
    if IsZero(a.digits) {
      return Ok(a);
    }
    if IsZero(b.digits) {
      ZeroMag(b.digits);
      return Err(DivisionByZero);
    }
    MagZeroIff(a.digits);
    MagZeroIff(b.digits);
    var absA, absB := Abs(a), Abs(b);
    var c := Compare(absA, absB);
    ghost var ma, mb := Mag(a.digits), Mag(b.digits);
    if c == Less {
      DivModUnique(ma, mb, 0, ma);
      SignedQuotient(a, b, 0);
      ZeroMag([0]);
      return Ok(BigInt([0], true));
    }
    var quot, rem := LongDivision(a.digits, absB);
    DivModUnique(ma, mb, Mag(quot), Mag(rem.digits));
    quot := Optimise(quot);
    QuotientPositive(ma, mb);
    MagZeroIff(quot);
    SignedQuotient(a, b, Mag(quot));
    r := Ok(BigInt(quot, a.sign == b.sign));
  }

  lemma QuotientPositive(n: nat, d: nat)
    requires n >= d > 0
    ensures n / d >= 1
  {
  }

  /** divide_assign's sign rule on the quotient of the magnitudes is C++'s
      truncating division on the values. */
  lemma SignedQuotient(a: BigInt, b: BigInt, qm: nat)
    requires Mag(a.digits) > 0 && Mag(b.digits) > 0 && qm == Mag(a.digits) / Mag(b.digits)
    ensures (if a.sign == b.sign then qm else -(qm as int)) == TruncDiv(Value(a), Value(b))
  {
    assert Magnitude(Value(a)) == Mag(a.digits) && Magnitude(Value(b)) == Mag(b.digits);
  }

  /** modulo_assign: a zero this is returned as it is (so 0 % 0 is 0); a
      zero divisor is an error; otherwise |this| mod |other|, always
      non-negative (|this| < |other| keeps the digits and sets the sign). */
  method Modulo(a: BigInt, b: BigInt) returns (r: Result<BigInt, DivError>)
    requires Wf(a) && Wf(b)
    ensures IsZero(a.digits) ==> r == Ok(a)
    ensures !IsZero(a.digits) && IsZero(b.digits) ==> r == Err(DivisionByZero)
    ensures !IsZero(a.digits) && Mag(b.digits) != 0 ==>
      r.Ok? && Normal(r.value) && r.value.sign && Value(r.value) == Mag(a.digits) % Mag(b.digits)
  {
    if IsZero(a.digits) {
      return Ok(a);
    }
    if IsZero(b.digits) {
      ZeroMag(b.digits);
      return Err(DivisionByZero);
    }
    MagZeroIff(a.digits);
    MagZeroIff(b.digits);
    var absA, absB := Abs(a), Abs(b);
    var c := Compare(absA, absB);
    ghost var ma, mb := Mag(a.digits), Mag(b.digits);
    if c == Less {
      DivModUnique(ma, mb, 0, ma);
      return Ok(absA);
    }
    var quot, rem := LongDivision(a.digits, absB);
    DivModUnique(ma, mb, Mag(quot), Mag(rem.digits));
    var ds := Optimise(rem.digits);
    TrimTrimmed(rem.digits);
    r := Ok(BigInt(ds, true));
  }

  /** Quotient and remainder fit together: for a non-negative dividend the
      remainder of modulo_assign is the one that goes with divide_assign's
      quotient, and it is smaller than the divisor. */
  lemma DivModAgree(x: int, y: int)
    requires x >= 0 && y != 0
    ensures TruncRem(x, y) == x % Magnitude(y)
    ensures x == TruncDiv(x, y) * y + x % Magnitude(y)
  {
    var my := Magnitude(y);
    var q, r := x / my, x % my;
    assert x == q * my + r;
    if y < 0 {
      assert TruncDiv(x, y) * y == (-q) * y == q * my;
    }
  }
}
