/** Decimal text of big_int: to_string, which peels decimal digits off with
    % 10 and / 10 and reverses them, and the string constructor, which
    strips a sign and leading zeros and then multiplies by ten and adds
    digit by digit. */
module BigIntText {
  import opened Wrappers
  import opened BigIntDigits
  import opened BigInts
  import opened BigIntMulDiv

  datatype ParseError = InvalidCharacter

  predicate IsDigitChar(c: char)
  {
    '0' <= c <= '9'
  }

  predicate AllDigits(s: string)
  {
    forall i | 0 <= i < |s| :: IsDigitChar(s[i])
  }

  function DigitValue(c: char): (r: nat)
    requires IsDigitChar(c)
    ensures r < 10
  {
    (c as int) - ('0' as int)
  }

  function DigitChar(d: nat): (c: char)
    requires d < 10
    ensures IsDigitChar(c) && DigitValue(c) == d
  {
    (('0' as int) + d) as char
  }

  /** The number a string of decimal digits spells, most significant digit
      first. */
  function DecimalValue(s: string): nat
    requires AllDigits(s)
  {
    if s == [] then 0 else DecimalValue(s[..|s| - 1]) * 10 + DigitValue(s[|s| - 1])
  }

  /** The decimal digits of n, most significant first, with no leading
      zero (and none at all for zero). */
  function DecimalDigits(n: nat): string
  {
    if n == 0 then "" else DecimalDigits(n / 10) + [DigitChar(n % 10)]
  }

  /** The text of a value: "0" for zero, otherwise a minus sign for
      negative values and the digits of the magnitude. */
  function DecimalString(v: int): string
  {
    if v == 0 then "0"
    else if v < 0 then "-" + DecimalDigits(-v)
    else DecimalDigits(v)
  }

  /** std::reverse. */
  function Reverse(s: string): (r: string)
    ensures |r| == |s|
  {
    if s == [] then [] else [s[|s| - 1]] + Reverse(s[..|s| - 1])
  }

  lemma ReverseSnoc(s: string, c: char)
    ensures Reverse(s + [c]) == [c] + Reverse(s)
  {
    assert (s + [c])[..|s|] == s;
  }

  /** A normal big_int below Base is the single digit of its value. */
  lemma SingleDigit(a: BigInt)
    requires Normal(a) && a.sign && Value(a) < Base
    ensures a.digits == [Value(a) as Digit]
  {
    if |a.digits| > 1 {
      MagTop(a.digits);
      assert Place(|a.digits| - 1) >= Base by {
        PlaceNext(0);
        PlaceMonotonic(1, |a.digits| - 1);
      }
    }
    assert a.digits[1..] == [];
  }

  /** One pass of the loop of to_string: tmp % 10 gives the lowest decimal
      digit, tmp /= 10 drops it. */
  method PeelDigit(tmp: BigInt) returns (c: char, tmp': BigInt)
    requires Normal(tmp) && tmp.sign && Value(tmp) > 0
    ensures Normal(tmp') && tmp'.sign && Value(tmp') == Value(tmp) / 10
    ensures c == DigitChar(Value(tmp) % 10)
  {
    var ten := FromInt(10);
    assert !IsZero(tmp.digits) by {
      if IsZero(tmp.digits) {
        ZeroMag(tmp.digits);
      }
    }
    var m := Modulo(tmp, ten);
    assert Mag(ten.digits) == 10;
    var val := m.value;
    SingleDigit(val);
    c := (('0' as int) + val.digits[0]) as char;
    var q := Divide(tmp, ten);
    tmp' := q.value;
    assert Value(tmp') == Value(tmp) / 10;
    NonNegative(tmp');
  }

  /** to_string: "0" for zero; otherwise the decimal digits of the
      magnitude, lowest first, then '-' for a negative number, and the
      whole reversed. */
  method ToString(a: BigInt) returns (s: string)
    requires Wf(a)
    ensures s == DecimalString(Value(a))
  {
    if IsZero(a.digits) {
      ZeroMag(a.digits);
      return "0";
    }
    MagZeroIff(a.digits);
    var res := "";
    var tmp := Abs(a);
    while !IsZero(tmp.digits)
      invariant Normal(tmp) && tmp.sign
      invariant DecimalDigits(Mag(a.digits)) == DecimalDigits(Value(tmp)) + Reverse(res)
      decreases Value(tmp)
    {
      MagZeroIff(tmp.digits);
      var c;
      c, tmp := PeelDigit(tmp);
      ReverseSnoc(res, c);
      res := res + [c];
    }
    ZeroMag(tmp.digits);
    SignLast(a, res);
    if !a.sign {
      res := res + "-";
    }
    s := Reverse(res);
  }

  /** The '-' appended last comes first once the string is reversed. */
  lemma SignLast(a: BigInt, res: string)
    requires Mag(a.digits) > 0 && DecimalDigits(Mag(a.digits)) == Reverse(res)
    ensures Reverse(if a.sign then res else res + "-") == DecimalString(Value(a))
  {
    ReverseSnoc(res, '-');
  }

  /** What the string constructor makes of a string: an optional '-' or
      '+' in front, then decimal digits (none at all is zero); any other
      character is an error. */
  function ParseSpec(num: string): Result<BigInt, ParseError>
  {
    var neg := |num| > 0 && num[0] == '-';
    var body := if |num| > 0 && (num[0] == '-' || num[0] == '+') then num[1..] else num;
    if !AllDigits(body) then Err(InvalidCharacter)
    else Ok(FromInt(if neg then -(DecimalValue(body) as int) else DecimalValue(body)))
  }

  /** Leading zeros do not change the number. */
  lemma {:induction false} LeadingZero(s: string)
    requires AllDigits(s)
    ensures AllDigits("0" + s) && DecimalValue("0" + s) == DecimalValue(s)
    decreases |s|
  {
    if s != [] {
      assert ("0" + s)[..|s|] == "0" + s[..|s| - 1];
      LeadingZero(s[..|s| - 1]);
    }
  }

  /** One pass of the constructor's loop: *this *= 10, then *this += digit. */
  method PushDigit(acc: BigInt, d: nat) returns (acc': BigInt)
    requires Normal(acc) && acc.sign && d < 10
    ensures Normal(acc') && acc'.sign && Value(acc') == Value(acc) * 10 + d
  {
    var ten := FromInt(10);
    acc' := Multiply(acc, ten);
    var digit := FromInt(d);
    acc' := PlusAssign(acc', digit);
    if IsZero(digit.digits) {
      NormalUnique(acc', FromInt(Value(acc')));
    }
    NonNegative(acc');
  }

  /** The constructor's loop that drops leading zeros while more than one
      character is left. */
  method StripZeros(s: string) returns (body: string)
    ensures |body| == 0 <==> |s| == 0
    ensures AllDigits(body) <==> AllDigits(s)
    ensures AllDigits(s) ==> DecimalValue(body) == DecimalValue(s)
  {
    body := s;
    while |body| > 1 && body[0] == '0'
      invariant |body| == 0 <==> |s| == 0
      invariant AllDigits(body) <==> AllDigits(s)
      invariant AllDigits(body) ==> DecimalValue(body) == DecimalValue(s)
    {
      assert body == "0" + body[1..];
      if AllDigits(body[1..]) {
        LeadingZero(body[1..]);
      }
      body := body[1..];
    }
  }

  /** The constructor's main loop: each character must be a decimal digit,
      and the value is accumulated as *this * 10 + digit. */
  method Accumulate(body: string) returns (r: Result<BigInt, ParseError>)
    ensures !AllDigits(body) ==> r == Err(InvalidCharacter)
    ensures AllDigits(body) ==> r.Ok? && Normal(r.value) && r.value.sign && Value(r.value) == DecimalValue(body)
  {
    var acc := FromInt(0);
    for k := 0 to |body|
      invariant AllDigits(body[..k]) && Normal(acc) && acc.sign
      invariant Value(acc) == DecimalValue(body[..k])
    {
      if !IsDigitChar(body[k]) {
        assert !AllDigits(body);
        return Err(InvalidCharacter);
      }
      assert body[..k + 1][..k] == body[..k];
      acc := PushDigit(acc, DigitValue(body[k]));
    }
    assert body[..|body|] == body;
    r := Ok(acc);
  }

  /** The string constructor (the radix is not used): "" is zero; a leading
      '-' or '+' is dropped; leading zeros are dropped; nothing left is
      zero; otherwise the digits are accumulated, and the sign set, except
      that zero is non-negative. */
  method Parse(num: string) returns (r: Result<BigInt, ParseError>)
    ensures r == ParseSpec(num)
  {
    if |num| == 0 {
      return Ok(FromInt(0));
    }
    var rest := num;
    var neg := false;
    if rest[0] == '-' {
      neg := true;
      rest := rest[1..];
    } else if rest[0] == '+' {
      rest := rest[1..];
    }
    var body := StripZeros(rest);
    if |body| == 0 {
      return Ok(FromInt(0));
    }
    var acc := Accumulate(body);
    if acc.Err? {
      return Err(InvalidCharacter);
    }
    var digits := acc.value.digits;
    var sign := !neg;
    if IsZero(digits) {
      sign := true;
    }
    r := Ok(BigInt(digits, sign));
    SignedResult(acc.value, neg, sign, DecimalValue(rest));
  }

  /** The sign set last, non-negative for zero, gives the normal big_int of
      the signed value. */
  lemma SignedResult(acc: BigInt, neg: bool, sign: bool, v: nat)
    requires Normal(acc) && acc.sign && Value(acc) == v
    requires sign == (!neg || IsZero(acc.digits))
    ensures BigInt(acc.digits, sign) == FromInt(if neg then -(v as int) else v)
  {
    if IsZero(acc.digits) {
      ZeroMag(acc.digits);
    }
    NormalUnique(BigInt(acc.digits, sign), FromInt(if neg then -(v as int) else v));
  }

  /** The digits of a positive number are decimal digits, start with a
      digit other than zero, and spell the number. */
  lemma {:induction false} DigitsSpell(n: nat)
    ensures AllDigits(DecimalDigits(n)) && DecimalValue(DecimalDigits(n)) == n
    ensures n > 0 ==> |DecimalDigits(n)| > 0 && DecimalDigits(n)[0] != '0'
    decreases n
  {
    if n > 0 {
      DigitsSpell(n / 10);
      var s := DecimalDigits(n);
      assert s[..|s| - 1] == DecimalDigits(n / 10);
    }
  }

  /** Reading back what to_string writes gives the same big_int. */
  lemma RoundTrip(v: int)
    ensures ParseSpec(DecimalString(v)) == Ok(FromInt(v))
  {
    if v == 0 {
      assert DecimalValue("0") == DecimalValue("") * 10 + 0;
    } else if v < 0 {
      RoundTripNegative(v);
    } else {
      DigitsSpell(v);
    }
  }

  lemma RoundTripNegative(v: int)
    requires v < 0
    ensures ParseSpec(DecimalString(v)) == Ok(FromInt(v))
  {
    var s := DecimalDigits(-v);
    DigitsSpell(-v);
    assert DecimalString(v) == "-" + s;
    assert ("-" + s)[1..] == s;
  }

  /** to_string writes no leading zero and no '+', so every value has one
      text. */
  lemma Canonical(v: int, w: int)
    requires DecimalString(v) == DecimalString(w)
    ensures v == w
  {
    RoundTrip(v);
    RoundTrip(w);
  }

  /** Reading back what to_string writes gives the same big_int. */
  method WriteThenRead(a: BigInt) returns (r: Result<BigInt, ParseError>)
    requires Normal(a)
    ensures r == Ok(a)
  {
    var text := ToString(a);
    r := Parse(text);
    RoundTrip(Value(a));
    NormalUnique(r.value, a);
  }
}
