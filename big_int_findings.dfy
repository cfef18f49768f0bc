/** The bitwise operators of big_int as they are written: the combined
    digits are optimised but the sign of the left operand is kept even when
    the result is zero. Everywhere else (the shifts, the constructors,
    multiplication and division) a zero result is given the non-negative
    sign, and operator<=> compares signs first, so such a negative zero
    compares below 0. BigIntBits models the evidently intended operators,
    whose zero results are non-negative. */
module BigIntFindings {
  import opened Powers
  import opened BigIntDigits
  import opened BigInts
  import opened BigIntBits

  /** operator&=, operator|= and operator^= as written. */
  function BitwiseAsWritten(op: BitOp, a: BigInt, b: BigInt): (r: BigInt)
    requires Wf(a) && Wf(b)
    ensures Wf(r) && r.sign == a.sign
    ensures r.digits == Bitwise(op, a, b).digits
  {
    BigInt(Trim(BitDigits(op, a.digits, b.digits)), a.sign)
  }

  /** operator~ as written. */
  function NotAsWritten(a: BigInt): (r: BigInt)
    requires Wf(a)
    ensures Wf(r) && r.sign == a.sign
    ensures r.digits == Not(a).digits
  {
    BigInt(Trim(seq(|a.digits|, i requires 0 <= i < |a.digits| => Complement(a.digits[i]))), a.sign)
  }

  /** The written operators differ from the intended ones only in the sign
      of a zero result. */
  lemma AsWrittenDiffersOnlyAtZero(op: BitOp, a: BigInt, b: BigInt)
    requires Wf(a) && Wf(b)
    ensures !IsZero(BitwiseAsWritten(op, a, b).digits) ==> BitwiseAsWritten(op, a, b) == Bitwise(op, a, b)
    ensures !IsZero(NotAsWritten(a).digits) ==> NotAsWritten(a) == Not(a)
    ensures Value(BitwiseAsWritten(op, a, b)) == Value(Bitwise(op, a, b))
    ensures Value(NotAsWritten(a)) == Value(Not(a))
  {
    var r := BitwiseAsWritten(op, a, b);
    if IsZero(r.digits) {
      ZeroMag(r.digits);
    }
    var n := NotAsWritten(a);
    if IsZero(n.digits) {
      ZeroMag(n.digits);
    }
  }

  /** (-1) & 2: the digits 1 and 2 share no bit, and the result is a zero
      with the negative sign, which is not the big_int 0. */
  lemma AndGivesNegativeZero()
    ensures BitwiseAsWritten(AndOp, FromInt(-1), FromInt(2)) == BigInt([0], false)
    ensures !Normal(BitwiseAsWritten(AndOp, FromInt(-1), FromInt(2)))
    ensures BitwiseAsWritten(AndOp, FromInt(-1), FromInt(2)) != FromInt(0)
    ensures Bitwise(AndOp, FromInt(-1), FromInt(2)) == FromInt(0)
  {
    var a, b := FromInt(-1), FromInt(2);
    assert a.digits == [1] && b.digits == [2];
    var ds := BitDigits(AndOp, a.digits, b.digits);
    assert ds[0] == Bits(AndOp, 1, 2, 32) by {
      Pow2Base();
    }
    assert Bits(AndOp, 1, 2, 32) == 2 * Bits(AndOp, 0, 1, 31);
    assert Bits(AndOp, 0, 1, 31) == 0 by {
      BitsCommute(AndOp, 0, 1, 31);
      PowBelow(31);
      BitsZero(1, 31);
    }
    assert ds == [0];
    assert FromInt(0).digits == [0];
  }

  lemma PowBelow(k: nat)
    requires k >= 1
    ensures 1 < Pow2(k)
  {
  }

  /** (-1) ^ (-1): every bit cancels, and the result is again a negative
      zero. */
  lemma XorGivesNegativeZero()
    ensures BitwiseAsWritten(XorOp, FromInt(-1), FromInt(-1)) == BigInt([0], false)
    ensures Bitwise(XorOp, FromInt(-1), FromInt(-1)) == FromInt(0)
  {
    var a := FromInt(-1);
    assert a.digits == [1];
    var ds := BitDigits(XorOp, a.digits, a.digits);
    BitsXorSame(1, 32);
    assert ds == [0];
    XorSelf(a);
  }

  /** ~(-(2^32 - 1)): the one digit is all ones, its complement is zero,
      and the sign stays negative. */
  lemma NotGivesNegativeZero()
    ensures NotAsWritten(FromInt(-0xFFFF_FFFF)) == BigInt([0], false)
    ensures Not(FromInt(-0xFFFF_FFFF)) == FromInt(0)
  {
    var a := FromInt(-0xFFFF_FFFF);
    assert a.digits == [0xFFFF_FFFF];
    assert FromInt(0).digits == [0];
  }
}
