/** The bitwise operators of big_int: &=, |= and ^= resize the left digits
    to the longer length, combine digit by digit and optimise; ~ complements
    every digit. All of them act on magnitudes and keep the left sign. */
module BigIntBits {
  import opened Powers
  import opened BigIntDigits
  import opened BigInts

  datatype BitOp = AndOp | OrOp | XorOp

  /** The operator on two bits. */
  function BitOf(op: BitOp, u: nat, v: nat): nat
    requires u < 2 && v < 2
  {
    match op
    case AndOp => u * v
    case OrOp => if u + v > 0 then 1 else 0
    case XorOp => (u + v) % 2
  }

  /** The operator on the low `width` bits of two numbers, lowest bit
      first. */
  function Bits(op: BitOp, x: nat, y: nat, width: nat): (r: nat)
    ensures r < Pow2(width)
  {
    if width == 0 then 0 else BitOf(op, x % 2, y % 2) + 2 * Bits(op, x / 2, y / 2, width - 1)
  }

  /** The operator on one unsigned digit. */
  function ApplyBit(op: BitOp, x: Digit, y: Digit): Digit
  {
    Pow2Base();
    Bits(op, x, y, 32)
  }

  /** ~ on one unsigned digit. */
  function Complement(x: Digit): Digit
  {
    0xFFFF_FFFF - x
  }

  /** The digit at i, zero past the end (the resized vector). */
  function Pad(ds: seq<Digit>, i: nat): Digit
  {
    if i < |ds| then ds[i] else 0
  }

  /** Both digit vectors read at the longer length and combined digit by
      digit. */
  function BitDigits(op: BitOp, xs: seq<Digit>, ys: seq<Digit>): (r: seq<Digit>)
    ensures |r| == Max(|xs|, |ys|)
    ensures forall i | 0 <= i < |r| :: r[i] == ApplyBit(op, Pad(xs, i), Pad(ys, i))
  {
    seq(Max(|xs|, |ys|), i requires 0 <= i => ApplyBit(op, Pad(xs, i), Pad(ys, i)))
  }

  /** A sign for the digits: the one given, unless the digits are zero. */
  function Signed(ds: seq<Digit>, sign: bool): (r: BigInt)
    requires Trimmed(ds)
    ensures Normal(r) && r.digits == ds
    ensures !IsZero(ds) ==> r.sign == sign
  {
    BigInt(ds, sign || IsZero(ds))
  }

  /** a op b: the combined digits optimised, with a's sign, and zero
      non-negative. */
  function Bitwise(op: BitOp, a: BigInt, b: BigInt): (r: BigInt)
    requires Wf(a) && Wf(b)
    ensures Normal(r)
  {
    Signed(Trim(BitDigits(op, a.digits, b.digits)), a.sign)
  }

  /** ~a: every digit complemented, optimised, with a's sign, and zero
      non-negative. */
  function Not(a: BigInt): (r: BigInt)
    requires Wf(a)
    ensures Normal(r)
  {
    Signed(Trim(seq(|a.digits|, i requires 0 <= i < |a.digits| => Complement(a.digits[i]))), a.sign)
  }

  /** operator&=, operator|= and operator^=, which differ only in the
      operator applied to each pair of digits. */
  method BitwiseAssign(op: BitOp, a: BigInt, b: BigInt) returns (r: BigInt)
    requires Wf(a) && Wf(b)
    ensures r == Bitwise(op, a, b)
  {
    var n := Max(|a.digits|, |b.digits|);
    var ds := a.digits + Zeros(n - |a.digits|);
    var i := 0;
    while i < n
      invariant 0 <= i <= n && |ds| == n
      invariant forall k | 0 <= k < i :: ds[k] == ApplyBit(op, Pad(a.digits, k), Pad(b.digits, k))
      invariant forall k | i <= k < n :: ds[k] == Pad(a.digits, k)
    {
      ds := ds[i := ApplyBit(op, ds[i], if i < |b.digits| then b.digits[i] else 0)];
      i := i + 1;
    }
    assert ds == BitDigits(op, a.digits, b.digits);
    ds := Optimise(ds);
    var sign := a.sign;
    if IsZero(ds) {
      sign := true;
    }
    r := BigInt(ds, sign);
  }

  /** operator~. */
  method Complemented(a: BigInt) returns (r: BigInt)
    requires Wf(a)
    ensures r == Not(a)
  {
    var ds := a.digits;
    for i := 0 to |ds|
      invariant |ds| == |a.digits|
      invariant forall k | 0 <= k < i :: ds[k] == Complement(a.digits[k])
      invariant forall k | i <= k < |ds| :: ds[k] == a.digits[k]
    {
      ds := ds[i := Complement(ds[i])];
    }
    assert ds == seq(|a.digits|, i requires 0 <= i < |a.digits| => Complement(a.digits[i]));
    ds := Optimise(ds);
    var sign := a.sign;
    if IsZero(ds) {
      sign := true;
    }
    r := BigInt(ds, sign);
  }

  /** x & x and x | x are x on numbers of the width. */
  lemma {:induction false} BitsSame(op: BitOp, x: nat, width: nat)
    requires op != XorOp && x < Pow2(width)
    ensures Bits(op, x, x, width) == x
    decreases width
  {
    if width > 0 {
      BitsSame(op, x / 2, width - 1);
    }
  }

  /** x ^ x is zero. */
  lemma {:induction false} BitsXorSame(x: nat, width: nat)
    ensures Bits(XorOp, x, x, width) == 0
    decreases width
  {
    if width > 0 {
      BitsXorSame(x / 2, width - 1);
    }
  }

  lemma {:induction false} BitsCommute(op: BitOp, x: nat, y: nat, width: nat)
    ensures Bits(op, x, y, width) == Bits(op, y, x, width)
    decreases width
  {
    if width > 0 {
      BitsCommute(op, x / 2, y / 2, width - 1);
    }
  }

  /** x | 0 and x ^ 0 are x, x & 0 is zero. */
  lemma {:induction false} BitsZero(x: nat, width: nat)
    requires x < Pow2(width)
    ensures Bits(OrOp, x, 0, width) == x && Bits(XorOp, x, 0, width) == x && Bits(AndOp, x, 0, width) == 0
    decreases width
  {
    if width > 0 {
      BitsZero(x / 2, width - 1);
    }
  }

  /** Only zero digits optimise to the single digit zero. */
  lemma {:induction false} TrimZeros(ds: seq<Digit>)
    requires |ds| >= 1 && forall i | 0 <= i < |ds| :: ds[i] == 0
    ensures Trim(ds) == [0]
    decreases |ds|
  {
    if |ds| > 1 {
      TrimZeros(ds[..|ds| - 1]);
    }
  }

  /** a & a and a | a give a back. */
  lemma Idempotent(op: BitOp, a: BigInt)
    requires Normal(a) && op != XorOp
    ensures Bitwise(op, a, a) == a
  {
    var ds := BitDigits(op, a.digits, a.digits);
    forall i | 0 <= i < |ds|
      ensures ds[i] == a.digits[i]
    {
      Pow2Base();
      BitsSame(op, a.digits[i], 32);
    }
    assert ds == a.digits;
    TrimTrimmed(a.digits);
  }

  /** a ^ a is zero, and non-negative. */
  lemma XorSelf(a: BigInt)
    requires Wf(a)
    ensures Bitwise(XorOp, a, a) == FromInt(0)
  {
    var ds := BitDigits(XorOp, a.digits, a.digits);
    forall i | 0 <= i < |ds|
      ensures ds[i] == 0
    {
      BitsXorSame(a.digits[i], 32);
    }
    TrimZeros(ds);
    assert DigitsOf(0) == [0];
  }

  /** The digits of a op b do not depend on the order of the operands; only
      the sign does. */
  lemma Commutes(op: BitOp, a: BigInt, b: BigInt)
    requires Wf(a) && Wf(b)
    ensures Bitwise(op, a, b).digits == Bitwise(op, b, a).digits
    ensures a.sign == b.sign ==> Bitwise(op, a, b) == Bitwise(op, b, a)
  {
    var xs, ys := BitDigits(op, a.digits, b.digits), BitDigits(op, b.digits, a.digits);
    forall i | 0 <= i < |xs|
      ensures xs[i] == ys[i]
    {
      BitsCommute(op, Pad(a.digits, i), Pad(b.digits, i), 32);
    }
    assert xs == ys;
  }

  /** Zero is the identity of | and ^, and absorbs &. */
  lemma WithZero(a: BigInt)
    requires Normal(a)
    ensures Bitwise(OrOp, a, FromInt(0)) == a
    ensures Bitwise(XorOp, a, FromInt(0)) == a
    ensures Bitwise(AndOp, a, FromInt(0)) == FromInt(0)
  {
    var z := FromInt(0);
    assert z.digits == [0];
    var ors, xors, ands := BitDigits(OrOp, a.digits, z.digits), BitDigits(XorOp, a.digits, z.digits),
      BitDigits(AndOp, a.digits, z.digits);
    forall i | 0 <= i < |a.digits|
      ensures ors[i] == a.digits[i] && xors[i] == a.digits[i] && ands[i] == 0
    {
      Pow2Base();
      BitsZero(a.digits[i], 32);
    }
    assert ors == a.digits && xors == a.digits;
    TrimTrimmed(a.digits);
    TrimZeros(ands);
  }

  /** ~~a is a when the top digit of a is not all ones (otherwise the first
      ~ drops that digit). */
  lemma NotNot(a: BigInt)
    requires Normal(a) && a.digits[|a.digits| - 1] != 0xFFFF_FFFF
    ensures Not(Not(a)) == a
  {
    var n := |a.digits|;
    var c := seq(n, i requires 0 <= i < n => Complement(a.digits[i]));
    assert c[n - 1] != 0;
    TrimTrimmed(c);
    assert Not(a).digits == c;
    assert !IsZero(c);
    var cc := seq(n, i requires 0 <= i < n => Complement(c[i]));
    assert cc == a.digits;
    TrimTrimmed(a.digits);
  }
}
