/** big_int: a sign flag and little-endian base-2^32 digits. A big_int is
    a value (copies are independent), so each compound operator of the class
    (+=, -=, <<=, ...) is a method that takes the old value and returns the
    new one; the plain operators copy and delegate to the same methods. */
module BigInts {
  import opened Powers
  import opened BigIntDigits

  /** sign is true for a non-negative number. */
  datatype BigInt = BigInt(digits: seq<Digit>, sign: bool)

  /** std::strong_ordering. */
  datatype Ordering = Less | Equal | Greater

  /** The integer a big_int stands for. */
  function Value(a: BigInt): int
  {
    var m: int := Mag(a.digits);
    if a.sign then m else -m
  }

  /** is_zero: exactly one digit, and it is zero. */
  predicate IsZero(ds: seq<Digit>)
  {
    |ds| == 1 && ds[0] == 0
  }

  /** What every operation keeps: the digits are trimmed by optimise. */
  predicate Wf(a: BigInt)
  {
    Trimmed(a.digits)
  }

  /** Normal form: trimmed digits, and zero carries the non-negative sign. */
  predicate Normal(a: BigInt)
  {
    Trimmed(a.digits) && (IsZero(a.digits) ==> a.sign)
  }

  function Cmp(x: int, y: int): Ordering
  {
    if x < y then Less else if x == y then Equal else Greater
  }

  function Abs(a: BigInt): BigInt
  {
    a.(sign := true)
  }

  /** Digits of a natural number, least significant first. */
  function DigitsOf(n: nat): (r: seq<Digit>)
    ensures Trimmed(r) && Mag(r) == n
    decreases n
  {
    if n < Base then
      assert [n][1..] == [];
      [n]
    else
      var rest := DigitsOf(n / Base);
      assert ([n % Base] + rest)[1..] == rest;
      assert rest != [0] by {
        assert [0][1..] == [];
      }
      [n % Base] + rest
  }

  /** The big_int of a machine integer, in normal form. */
  function FromInt(n: int): (r: BigInt)
    ensures Normal(r) && Value(r) == n
  {
    if n >= 0 then BigInt(DigitsOf(n), true)
    else
      var r := BigInt(DigitsOf(-n), false);
      assert !IsZero(r.digits) by {
        assert [0][1..] == [];
      }
      r
  }

  lemma ZeroMag(ds: seq<Digit>)
    requires IsZero(ds)
    ensures Mag(ds) == 0
  {
    assert ds[1..] == [];
  }

  /** Two normal big_ints of one value are the same big_int. */
  lemma NormalUnique(a: BigInt, b: BigInt)
    requires Normal(a) && Normal(b) && Value(a) == Value(b)
    ensures a == b
  {
    MagZeroIff(a.digits);
    MagZeroIff(b.digits);
    assert Mag(a.digits) == Mag(b.digits);
    MagInjective(a.digits, b.digits);
  }

  /** The digits optimise leaves: a prefix of the same magnitude, trimmed
      whenever there was a digit to keep. */
  function Trim(ds: seq<Digit>): (r: seq<Digit>)
    ensures |r| <= |ds| && r == ds[..|r|] && Mag(r) == Mag(ds)
    ensures |ds| >= 1 ==> Trimmed(r)
  {
    if |ds| > 1 && ds[|ds| - 1] == 0 then
      MagPrefix(ds, |ds| - 1);
      assert ds[..|ds|] == ds;
      Trim(ds[..|ds| - 1])
    else
      assert ds[..|ds|] == ds;
      ds
  }

  /** Optimising digits that are already trimmed changes nothing. */
  lemma TrimTrimmed(ds: seq<Digit>)
    requires Trimmed(ds)
    ensures Trim(ds) == ds
  {
  }

  /** optimise: drops zero digits from the top while more than one is left. */
  method Optimise(ds: seq<Digit>) returns (r: seq<Digit>)
    ensures r == Trim(ds)
  {
    r := ds;
    while |r| > 1 && r[|r| - 1] == 0
      invariant Trim(r) == Trim(ds)
    {
      r := r[..|r| - 1];
    }
  }

  /** operator<=>: sign first, then the number of digits, then the highest
      differing digit, reversed for negative numbers. */
  method Compare(a: BigInt, b: BigInt) returns (r: Ordering)
    requires Wf(a) && Wf(b)
    ensures a.sign == b.sign || (Normal(a) && Normal(b)) ==> r == Cmp(Value(a), Value(b))
    ensures a.sign != b.sign ==> r == (if a.sign then Greater else Less)
  {
    if a.sign != b.sign {
      MagZeroIff(a.digits);
      MagZeroIff(b.digits);
      return if a.sign then Greater else Less;
    }
    var n := |a.digits|;
    if n != |b.digits| {
      if n < |b.digits| {
        MagLonger(a.digits, b.digits);
      } else {
        MagLonger(b.digits, a.digits);
      }
      return if a.sign then Cmp(n, |b.digits|) else Cmp(|b.digits|, n);
    }
    var i := n;
    while i > 0
      invariant 0 <= i <= n
      invariant a.digits[i..] == b.digits[i..]
    {
      i := i - 1;
      if a.digits[i] != b.digits[i] {
        if a.digits[i] < b.digits[i] {
          MagDiffer(a.digits, b.digits, i);
        } else {
          MagDiffer(b.digits, a.digits, i);
        }
        return if a.sign then Cmp(a.digits[i], b.digits[i]) else Cmp(b.digits[i], a.digits[i]);
      }
      assert a.digits[i..] == [a.digits[i]] + a.digits[i + 1..];
      assert b.digits[i..] == [b.digits[i]] + b.digits[i + 1..];
    }
    assert a.digits == a.digits[0..] && b.digits == b.digits[0..];
    return Equal;
  }

  /** operator==: the comparison says equal. On normal forms this is
      equality of the numbers and of the representations. */
  method Equals(a: BigInt, b: BigInt) returns (r: bool)
    requires Wf(a) && Wf(b)
    ensures Normal(a) && Normal(b) ==> (r <==> Value(a) == Value(b)) && (r <==> a == b)
  {
    var c := Compare(a, b);
    r := c == Equal;
    if Normal(a) && Normal(b) && r {
      NormalUnique(a, b);
    }
  }

  lemma AddArith(lo: int, c: int, x: int, y: int, xlo: int, ylo: int, p: nat, s: nat)
    requires lo + c * p == xlo + ylo && s == c + x + y
    ensures lo + (s % Base) * p + (s / Base) * (Base * p) == (xlo + x * p) + (ylo + y * p)
  {
    CarrySplit(s, p);
    assert s * p == c * p + x * p + y * p;
  }

  /** One round of the carry loop keeps its invariant. */
  lemma AddStep(r: seq<Digit>, xs: seq<Digit>, ys: seq<Digit>, i: nat, carry: nat, sum: nat)
    requires i < |r| && r[i] == (if i < |xs| then xs[i] else 0)
    requires Mag(r[..i]) + carry * Place(i) == Mag(xs[..Min(i, |xs|)]) + Mag(ys[..Min(i, |ys|)])
    requires sum == carry + r[i] + (if i < |ys| then ys[i] else 0)
    ensures Mag(r[i := sum % Base][..i + 1]) + (sum / Base) * Place(i + 1)
      == Mag(xs[..Min(i + 1, |xs|)]) + Mag(ys[..Min(i + 1, |ys|)])
  {
    MagPrefixPadded(xs, i);
    MagPrefixPadded(ys, i);
    PlaceNext(i);
    MagPrefix(r[i := sum % Base], i);
    assert r[i := sum % Base][..i] == r[..i];
    AddArith(Mag(r[..i]), carry, if i < |xs| then xs[i] else 0, if i < |ys| then ys[i] else 0,
      Mag(xs[..Min(i, |xs|)]), Mag(ys[..Min(i, |ys|)]), Place(i), sum);
  }

  /** One round of the carry loop of plus_assign: digit i of the sum, and
      the carry into the next digit. */
  method AddRound(r: seq<Digit>, xs: seq<Digit>, ys: seq<Digit>, i: nat, carry: nat, ghost padded: seq<Digit>)
    returns (r': seq<Digit>, carry': nat)
    requires i < |r| == |padded| && r[i..] == padded[i..] && carry <= 1
    requires forall k | 0 <= k < |padded| :: padded[k] == (if k < |xs| then xs[k] else 0)
    requires Mag(r[..i]) + carry * Place(i) == Mag(xs[..Min(i, |xs|)]) + Mag(ys[..Min(i, |ys|)])
    ensures |r'| == |r| && r'[i + 1..] == padded[i + 1..] && carry' <= 1
    ensures Mag(r'[..i + 1]) + carry' * Place(i + 1) == Mag(xs[..Min(i + 1, |xs|)]) + Mag(ys[..Min(i + 1, |ys|)])
  {
    assert r[i] == padded[i] by {
      assert r[i..][0] == padded[i..][0];
    }
    var sum := carry + r[i] + (if i < |ys| then ys[i] else 0);
    AddStep(r, xs, ys, i, carry, sum);
    r' := r[i := sum % Base];
    assert r'[i + 1..] == r[i..][1..];
    carry' := sum / Base;
  }

  /** The carry loop of plus_assign: the sum of two magnitudes, the first
      resized to the longer length. */
  method AddDigits(xs: seq<Digit>, ys: seq<Digit>) returns (r: seq<Digit>)
    ensures Mag(r) == Mag(xs) + Mag(ys) && |r| >= |xs|
  {
    var n := Max(|xs|, |ys|);
    r := xs + Zeros(n - |xs|);
    ghost var padded := r;
    assert forall k | 0 <= k < n :: padded[k] == (if k < |xs| then xs[k] else 0);
    var carry: nat := 0;
    var i := 0;
    while i < n
      invariant 0 <= i <= n && |r| == n
      invariant r[i..] == padded[i..]
      invariant carry <= 1
      invariant Mag(r[..i]) + carry * Place(i) == Mag(xs[..Min(i, |xs|)]) + Mag(ys[..Min(i, |ys|)])
    {
      r, carry := AddRound(r, xs, ys, i, carry, padded);
      i := i + 1;
    }
    assert r[..n] == r && xs[..|xs|] == xs && ys[..|ys|] == ys;
    if carry > 0 {
      MagAppend(r, carry);
      r := r + [carry];
    }
  }

  lemma SubArith(lo: int, b: int, x: int, y: int, xlo: int, ylo: int, p: nat, d: int, b': int)
    requires lo + b * p == xlo - ylo && d + b' * Base == b + x - y
    ensures lo + d * p + b' * (Base * p) == (xlo + x * p) - (ylo + y * p)
  {
    assert b' * (Base * p) == (b' * Base) * p;
    assert d * p + (b' * Base) * p == (d + b' * Base) * p;
    assert (b + x - y) * p == b * p + x * p - y * p;
  }

  /** One round of the borrow loop keeps its invariant. */
  lemma SubStep(r: seq<Digit>, xs: seq<Digit>, ys: seq<Digit>, i: nat, borrow: int, d: Digit, borrow': int)
    requires i < |r|
    requires Mag(r[..i]) + borrow * Place(i) == Mag(xs[..Min(i, |xs|)]) - Mag(ys[..Min(i, |ys|)])
    requires d + borrow' * Base
      == borrow + (if i < |xs| then xs[i] else 0) - (if i < |ys| then ys[i] else 0)
    ensures Mag(r[i := d][..i + 1]) + borrow' * Place(i + 1)
      == Mag(xs[..Min(i + 1, |xs|)]) - Mag(ys[..Min(i + 1, |ys|)])
  {
    MagPrefixPadded(xs, i);
    MagPrefixPadded(ys, i);
    MagPrefix(r[i := d], i);
    assert r[i := d][..i] == r[..i];
    PlaceNext(i);
    SubArith(Mag(r[..i]), borrow, if i < |xs| then xs[i] else 0, if i < |ys| then ys[i] else 0,
      Mag(xs[..Min(i, |xs|)]), Mag(ys[..Min(i, |ys|)]), Place(i), d, borrow');
  }

  /** The borrow loop of minus_assign: the difference of two magnitudes,
      the larger first, into a vector as long as the longer one. */
  method SubDigits(xs: seq<Digit>, ys: seq<Digit>) returns (r: seq<Digit>)
    requires Mag(ys) <= Mag(xs)
    ensures |r| == Max(|xs|, |ys|) && Mag(r) == Mag(xs) - Mag(ys)
  {
    var n := Max(|xs|, |ys|);
    r := Zeros(n);
    var borrow: int := 0;
    var i := 0;
    while i < n
      invariant 0 <= i <= n && |r| == n
      invariant borrow == 0 || borrow == -1
      invariant Mag(r[..i]) + borrow * Place(i) == Mag(xs[..Min(i, |xs|)]) - Mag(ys[..Min(i, |ys|)])
    {
      r, borrow := SubRound(r, xs, ys, i, borrow);
      i := i + 1;
    }
    assert r[..n] == r && xs[..|xs|] == xs && ys[..|ys|] == ys;
    SubNoBorrow(r, Mag(xs) - Mag(ys), borrow);
  }

  /** After the last round no borrow is left, since the larger magnitude
      came first. */
  lemma SubNoBorrow(r: seq<Digit>, diff: nat, borrow: int)
    requires borrow == 0 || borrow == -1
    requires Mag(r) + borrow * Place(|r|) == diff
    ensures Mag(r) == diff
  {
    MagBound(r);
  }

  /** One round of the borrow loop of minus_assign: digit i of the
      difference, and the borrow it takes from the next digit. */
  method SubRound(r: seq<Digit>, xs: seq<Digit>, ys: seq<Digit>, i: nat, borrow: int)
    returns (r': seq<Digit>, borrow': int)
    requires i < |r| && (borrow == 0 || borrow == -1)
    requires Mag(r[..i]) + borrow * Place(i) == Mag(xs[..Min(i, |xs|)]) - Mag(ys[..Min(i, |ys|)])
    ensures |r'| == |r| && (borrow' == 0 || borrow' == -1)
    ensures Mag(r'[..i + 1]) + borrow' * Place(i + 1) == Mag(xs[..Min(i + 1, |xs|)]) - Mag(ys[..Min(i + 1, |ys|)])
  {
    var difference := borrow;
    if i < |xs| {
      difference := difference + xs[i];
    }
    if i < |ys| {
      difference := difference - ys[i];
    }
    if difference < 0 {
      difference := difference + Base;
      borrow' := -1;
    } else {
      borrow' := 0;
    }
    SubStep(r, xs, ys, i, borrow, difference, borrow');
    r' := r[i := difference];
  }

  /** plus_assign with shift 0 (operator+=): the integer sum. Equal signs
      add the magnitudes; different signs go to minus_assign. A zero
      operand leaves the value untouched, anything else is normalised. */
  method PlusAssign(a: BigInt, b: BigInt) returns (r: BigInt)
    requires Wf(a) && Wf(b)
    ensures Wf(r) && Value(r) == Value(a) + Value(b)
    ensures IsZero(b.digits) ==> r == a
    ensures !IsZero(b.digits) ==> Normal(r)
    decreases if a.sign == b.sign then 0 else 1
  {
    if IsZero(b.digits) {
      ZeroMag(b.digits);
      return a;
    }
    var ds: seq<Digit>;
    var sign := a.sign;
    if a.sign == b.sign {
      ds := AddDigits(a.digits, b.digits);
    } else {
      var t := MinusAssign(a, b.(sign := a.sign));
      ds, sign := t.digits, t.sign;
    }
    ds := Optimise(ds);
    if IsZero(ds) {
      ZeroMag(ds);
      sign := true;
    }
    r := BigInt(ds, sign);
  }

  /** minus_assign with shift 0 (operator-=): the integer difference.
      Different signs go to plus_assign; otherwise the smaller magnitude is
      taken from the larger and the sign flips when the other was larger. */
  method MinusAssign(a: BigInt, b: BigInt) returns (r: BigInt)
    requires Wf(a) && Wf(b)
    ensures Wf(r) && Value(r) == Value(a) - Value(b)
    ensures IsZero(b.digits) ==> r == a
    ensures !IsZero(b.digits) ==> Normal(r)
    decreases if a.sign == b.sign then 0 else 1
  {
    if IsZero(b.digits) {
      ZeroMag(b.digits);
      return a;
    }
    if a.sign != b.sign {
      r := PlusAssign(a, b.(sign := a.sign));
      return;
    }
    // abs_other <<= shift is the identity for shift 0
    var x, y := a.digits, b.digits;
    var resultSign := a.sign;
    var c := Compare(Abs(a), Abs(b));
    if c == Less {
      resultSign := !resultSign;
      x, y := y, x;
    }
    var ds := SubDigits(x, y);
    ds := Optimise(ds);
    if IsZero(ds) {
      ZeroMag(ds);
      resultSign := true;
    }
    r := BigInt(ds, resultSign);
  }

  // -------------------------------------------------------------------
  // Shifts

  lemma ShiftUpArith(lo: nat, c: nat, d: nat, mlo: nat, p: nat, q: nat, v: nat)
    requires lo + c * p == mlo * q && v == d * q + c
    ensures lo + (v % Base) * p + (v / Base) * (Base * p) == (mlo + d * p) * q
  {
    CarrySplit(v, p);
    assert v * p == (d * q) * p + c * p;
    assert (d * q) * p == (d * p) * q;
    assert (mlo + d * p) * q == mlo * q + (d * p) * q;
  }

  /** One round of the carry loop of <<= keeps its invariant. */
  lemma ShiftUpStep(r: seq<Digit>, ds: seq<Digit>, i: nat, carry: nat, q: nat, value: nat)
    requires i < |r| && i < |ds| && r[i] == ds[i]
    requires Mag(r[..i]) + carry * Place(i) == Mag(ds[..i]) * q
    requires value == r[i] * q + carry
    ensures Mag(r[i := value % Base][..i + 1]) + (value / Base) * Place(i + 1) == Mag(ds[..i + 1]) * q
  {
    MagPrefix(ds, i);
    MagPrefix(r[i := value % Base], i);
    assert r[i := value % Base][..i] == r[..i];
    PlaceNext(i);
    ShiftUpArith(Mag(r[..i]), carry, ds[i], Mag(ds[..i]), Place(i), q, value);
  }

  lemma DivBelow(v: nat, d: nat, q: nat)
    requires d > 0 && v < q * d
    ensures v / d < q
  {
    if v / d >= q {
      MulLe(q, v / d, d);
    }
  }

  /** The carry loop of <<=: each digit moves up by bitShift bits and the
      bits pushed out of the top go into the next digit. The carry fits
      below the shifted digit, so the source's | adds it. */
  method ShiftDigitsUp(ds: seq<Digit>, bitShift: nat) returns (r: seq<Digit>)
    requires 0 < bitShift < 32
    ensures Mag(r) == Mag(ds) * Pow2(bitShift) && |r| >= |ds|
  {
    var q := Pow2(bitShift);
    assert q < Base by {
      Pow2Monotonic(bitShift, 31);
      Pow2Base();
    }
    r := ds;
    var carry: nat := 0;
    var i := 0;
    while i < |ds|
      invariant 0 <= i <= |ds| && |r| == |ds| && r[i..] == ds[i..]
      invariant carry < q
      invariant Mag(r[..i]) + carry * Place(i) == Mag(ds[..i]) * q
    {
      r, carry := ShiftUpRound(r, ds, i, carry, q);
      i := i + 1;
    }
    assert r[..i] == r && ds[..i] == ds;
    if carry > 0 {
      MagAppend(r, carry);
      r := r + [carry];
    }
  }

  /** One round of the bit loop of <<=: digit i times 2^bitShift plus the
      carry, its low 32 bits kept and the rest carried. */
  method ShiftUpRound(r: seq<Digit>, ds: seq<Digit>, i: nat, carry: nat, q: nat) returns (r': seq<Digit>, carry': nat)
    requires i < |ds| && |r| == |ds| && r[i..] == ds[i..] && 0 < q < Base && carry < q
    requires Mag(r[..i]) + carry * Place(i) == Mag(ds[..i]) * q
    ensures |r'| == |ds| && r'[i + 1..] == ds[i + 1..] && carry' < q
    ensures Mag(r'[..i + 1]) + carry' * Place(i + 1) == Mag(ds[..i + 1]) * q
  {
    assert r[i] == ds[i] by {
      assert r[i..][0] == ds[i..][0];
    }
    var value := r[i] * q + carry;
    assert value / Base < q by {
      CarryBelow(r[i], q, carry);
    }
    ShiftUpStep(r, ds, i, carry, q, value);
    r' := r[i := value % Base];
    carry' := value / Base;
    assert r'[i + 1..] == r[i + 1..];
  }

  /** operator<<=: the magnitude times 2^shift, the sign kept; whole digits
      are inserted at the bottom, then the remaining bits shift through. */
  method ShiftLeft(a: BigInt, shift: nat) returns (r: BigInt)
    requires Wf(a)
    ensures Wf(r) && Value(r) == Value(a) * Pow2(shift)
    ensures Normal(a) ==> Normal(r)
  {
    if shift == 0 || IsZero(a.digits) {
      if IsZero(a.digits) {
        ZeroMag(a.digits);
      }
      ValueScale(a, a, Pow2(shift));
      return a;
    }
    var intShift := shift / 32;
    var bitShift := shift % 32;
    var ds := a.digits;
    if intShift > 0 {
      ds := Zeros(intShift) + ds;
    }
    assert Mag(ds) == Place(intShift) * Mag(a.digits) by {
      MagShifted(a.digits, intShift);
      assert Zeros(0) + a.digits == a.digits;
    }
    ghost var m := Mag(ds);
    if bitShift > 0 {
      ds := ShiftDigitsUp(ds, bitShift);
    }
    assert Mag(ds) == Mag(a.digits) * Pow2(shift) by {
      assert Mag(ds) == m * Pow2(bitShift);
      ShiftSplit(Mag(a.digits), shift);
    }
    ds := Optimise(ds);
    assert Mag(ds) > 0 by {
      MagZeroIff(a.digits);
      MulLe(1, Mag(a.digits), Pow2(shift));
    }
    r := BigInt(ds, a.sign);
    assert !IsZero(ds) by {
      if IsZero(ds) {
        ZeroMag(ds);
      }
    }
    ValueScale(a, r, Pow2(shift));
  }

  lemma ValueScale(a: BigInt, r: BigInt, k: nat)
    requires r.sign == a.sign && Mag(r.digits) == Mag(a.digits) * k
    ensures Value(r) == Value(a) * k
  {
  }

  /** Shifting by whole digits and then by the remaining bits is shifting
      by the total. */
  lemma ShiftSplit(m: nat, shift: nat)
    ensures Place(shift / 32) * m * Pow2(shift % 32) == m * Pow2(shift)
  {
    var k, j := shift / 32, shift % 32;
    assert shift == 32 * k + j;
    PlacePow2(k);
    Pow2Add(32 * k, j);
    Rotate(Place(k), m, Pow2(j));
  }

  lemma Rotate(a: nat, m: nat, b: nat)
    ensures a * m * b == m * (a * b)
  {
  }

  lemma CarryBelow(d: Digit, q: nat, carry: nat)
    requires carry < q
    ensures (d * q + carry) / Base < q
  {
    MulLe(d, Base - 1, q);
    DivBelow(d * q + carry, Base, q);
  }

  lemma DivDiv(n: nat, p: nat, q: nat)
    requires p > 0 && q > 0
    ensures n / p / q == n / (p * q)
  {
    var a, b := n / p, n % p;
    var c, d := a / q, a % q;
    DivDivArith(n, a, b, c, d, p, q);
    DivModUnique(n, p * q, c, p * d + b);
  }

  lemma DivDivArith(n: nat, a: nat, b: nat, c: nat, d: nat, p: nat, q: nat)
    requires n == a * p + b && b < p && a == c * q + d && d < q
    ensures n == c * (p * q) + (p * d + b) && p * d + b < p * q
  {
    assert a * p == c * (p * q) + p * d by {
      assert (c * q + d) * p == (c * q) * p + d * p;
      assert (c * q) * p == c * (p * q);
    }
    MulLe(d, q - 1, p);
    assert (q - 1) * p == p * q - p;
  }

  lemma ShiftDownArith(d: nat, m: nat, mr: nat, carry: nat, p: nat, value: nat)
    requires p > 0 && m == mr * p + carry && value == carry * Base + d
    ensures d + Base * m == (value / p + Base * mr) * p + value % p
  {
    var q, c := value / p, value % p;
    assert value == q * p + c;
    assert Base * (mr * p) == (Base * mr) * p;
    assert d + Base * m == (Base * mr) * p + value;
    assert (q + Base * mr) * p == q * p + (Base * mr) * p;
  }

  lemma DigitBelow(carry: nat, d: Digit, p: nat)
    requires carry < p
    ensures (carry * Base + d) / p < Base
  {
    MulLe(carry, p - 1, Base);
    DivBelow(carry * Base + d, p, Base);
  }

  /** One round of the top-down loop of >>= keeps its invariant. */
  lemma ShiftDownStep(r: seq<Digit>, ds: seq<Digit>, i: nat, carry: nat, p: nat, value: nat, digit: Digit)
    requires 0 < i <= |ds| && |r| == |ds| && r[i - 1] == ds[i - 1] && p > 0
    requires Mag(ds[i..]) == Mag(r[i..]) * p + carry
    requires value == carry * Base + r[i - 1] && digit == value / p
    ensures Mag(ds[i - 1..]) == Mag(r[i - 1 := digit][i - 1..]) * p + value % p
  {
    assert ds[i - 1..][1..] == ds[i..];
    assert r[i - 1 := digit][i - 1..][1..] == r[i..];
    ShiftDownArith(ds[i - 1], Mag(ds[i..]), Mag(r[i..]), carry, p, value);
  }

  /** The top-down loop of >>=: each digit takes the bits the digit above
      shifted out, and gives its low bits to the digit below. */
  method ShiftDigitsDown(ds: seq<Digit>, bitShift: nat) returns (r: seq<Digit>)
    requires 0 < bitShift < 32
    ensures |r| == |ds| && Mag(r) == Mag(ds) / Pow2(bitShift)
  {
    var p := Pow2(bitShift);
    r := ds;
    var carry: nat := 0;
    var i := |ds|;
    assert ds[i..] == [] && r[i..] == [];
    while i > 0
      invariant 0 <= i <= |ds| && |r| == |ds| && r[..i] == ds[..i]
      invariant Mag(ds[i..]) == Mag(r[i..]) * p + carry && carry < p
    {
      r, carry := ShiftDownRound(r, ds, i, carry, p);
      i := i - 1;
    }
    assert r[0..] == r && ds[0..] == ds;
    DivModUnique(Mag(ds), p, Mag(r), carry);
  }

  /** One round of the top-down loop of >>=: digit i - 1 takes the carry
      from above as its high bits, keeps value >> bitShift and passes the
      low bits down. */
  method ShiftDownRound(r: seq<Digit>, ds: seq<Digit>, i: nat, carry: nat, p: nat)
    returns (r': seq<Digit>, carry': nat)
    requires 0 < i <= |ds| && |r| == |ds| && r[..i] == ds[..i] && p > 0
    requires Mag(ds[i..]) == Mag(r[i..]) * p + carry && carry < p
    ensures |r'| == |ds| && r'[..i - 1] == ds[..i - 1]
    ensures Mag(ds[i - 1..]) == Mag(r'[i - 1..]) * p + carry' && carry' < p
  {
    assert r[i - 1] == ds[i - 1] by {
      assert r[..i][i - 1] == ds[..i][i - 1];
    }
    var value := carry * Base + r[i - 1];
    assert value / p < Base by {
      DigitBelow(carry, r[i - 1], p);
    }
    r' := r[i - 1 := value / p];
    ShiftDownStep(r, ds, i, carry, p, value, value / p);
    assert r'[..i - 1] == r[..i][..i - 1];
    carry' := value % p;
  }

  /** operator>>=: the magnitude divided by 2^shift and rounded down, the
      sign kept unless the result is zero, which is non-negative; a shift
      past every digit gives zero outright. */
  method ShiftRight(a: BigInt, shift: nat) returns (r: BigInt)
    requires Wf(a)
    ensures Wf(r)
    ensures Value(r) == if a.sign then Mag(a.digits) / Pow2(shift) else -(Mag(a.digits) / Pow2(shift))
    ensures Normal(a) ==> Normal(r)
  {
    var ds := ShiftedDigits(a.digits, shift);
    if ds == a.digits {
      return a;
    }
    var sign := a.sign;
    if IsZero(ds) {
      ZeroMag(ds);
      sign := true;
    }
    r := BigInt(ds, sign);
  }

  /** The digits of >>=: trimmed, and the magnitude rounded down. */
  method ShiftedDigits(ds: seq<Digit>, shift: nat) returns (rs: seq<Digit>)
    requires Trimmed(ds)
    ensures Trimmed(rs) && Mag(rs) == Mag(ds) / Pow2(shift)
    ensures shift == 0 || IsZero(ds) ==> rs == ds
  {
    if shift == 0 || IsZero(ds) {
      assert Mag(ds) / Pow2(shift) == Mag(ds) by {
        if IsZero(ds) {
          ZeroMag(ds);
        } else {
          assert Pow2(0) == 1;
        }
      }
      return ds;
    }
    if shift / 32 >= |ds| {
      ShiftPastDigits(ds, shift);
      ZeroMag([0]);
      return [0];
    }
    rs := DropDigits(ds, shift);
    rs := Optimise(rs);
  }

  /** The erase and the bit loop of >>=: the digits below intShift go, and
      the rest shift right by bitShift bits. */
  method DropDigits(ds: seq<Digit>, shift: nat) returns (rs: seq<Digit>)
    requires shift / 32 < |ds|
    ensures |rs| >= 1 && Mag(rs) == Mag(ds) / Pow2(shift)
  {
    var intShift := shift / 32;
    var bitShift := shift % 32;
    rs := ds;
    if intShift > 0 {
      rs := rs[intShift..];
    }
    assert rs == ds[intShift..];
    if bitShift > 0 {
      rs := ShiftDigitsDown(rs, bitShift);
    }
    ShiftDownTotal(ds, shift, rs);
  }

  /** A shift past every digit leaves nothing. */
  lemma ShiftPastDigits(ds: seq<Digit>, shift: nat)
    requires shift / 32 >= |ds|
    ensures Mag(ds) / Pow2(shift) == 0
  {
    MagBound(ds);
    PlaceMonotonic(|ds|, shift / 32);
    ShiftSplit(1, shift);
    MulLe(1, Pow2(shift % 32), Place(shift / 32));
    DivModUnique(Mag(ds), Pow2(shift), 0, Mag(ds));
  }

  /** Dropping shift / 32 digits and then shifting the rest right by
      shift % 32 bits divides by 2^shift. */
  lemma ShiftDownTotal(ds: seq<Digit>, shift: nat, rs: seq<Digit>)
    requires shift / 32 <= |ds|
    requires shift % 32 == 0 ==> rs == ds[shift / 32..]
    requires shift % 32 > 0 ==> Mag(rs) == Mag(ds[shift / 32..]) / Pow2(shift % 32)
    ensures Mag(rs) == Mag(ds) / Pow2(shift)
  {
    var k, j := shift / 32, shift % 32;
    MagDrop(ds, k);
    assert Pow2(0) == 1;
    DivDiv(Mag(ds), Place(k), Pow2(j));
    ShiftSplit(1, shift);
  }
}
