/** The text form of fraction: to_string writes "numerator/denominator",
    and operator>> accepts `[-+]?digits` optionally followed by
    `/[-+]?digits`, reads each part with the big_int string constructor
    (the denominator defaults to 1) and builds the fraction from them. */
module FractionText {
  import opened Wrappers
  import BigInts
  import opened BigIntText
  import opened Fractions

  /** to_string: both parts as big_int's operator<< writes them, joined by
      a slash. */
  function ToText(f: Fraction): string
  {
    DecimalString(f.num) + "/" + DecimalString(f.den)
  }

  /** `[-+]?\d+`: an optional sign and at least one decimal digit. */
  predicate SignedInteger(s: string)
  {
    var body := if |s| > 0 && (s[0] == '-' || s[0] == '+') then s[1..] else s;
    |body| > 0 && AllDigits(body)
  }

  /** The value the big_int string constructor gives such a string. */
  function IntegerValue(s: string): int
    requires SignedInteger(s)
  {
    var body := if s[0] == '-' || s[0] == '+' then s[1..] else s;
    if s[0] == '-' then -(DecimalValue(body) as int) else DecimalValue(body)
  }

  /** The first slash of s at or after i. */
  function FindSlash(s: string, i: nat): (r: Option<nat>)
    requires i <= |s|
    ensures r.Some? ==> i <= r.value < |s| && s[r.value] == '/' && forall k | i <= k < r.value :: s[k] != '/'
    ensures r.None? ==> forall k | i <= k < |s| :: s[k] != '/'
    decreases |s| - i
  {
    if i == |s| then None else if s[i] == '/' then Some(i) else FindSlash(s, i + 1)
  }

  /** The anchored pattern of operator>>: the numerator and denominator it
      reads, the denominator being 1 when the slash part is absent. No
      digit or sign is a slash, so a slash can only be the first one. */
  function Fields(input: string): Option<(int, int)>
  {
    match FindSlash(input, 0)
    case None =>
      if SignedInteger(input) then Some((IntegerValue(input), 1)) else None
    case Some(i) =>
      var numText, denText := input[..i], input[i + 1..];
      if SignedInteger(numText) && SignedInteger(denText) then
        Some((IntegerValue(numText), IntegerValue(denText)))
      else None
  }

  /** On a string of the pattern the big_int constructor yields its value. */
  lemma IntegerParses(s: string)
    requires SignedInteger(s)
    ensures ParseSpec(s) == Ok(BigInts.FromInt(IntegerValue(s)))
  {
  }

  /** One part of the pattern read by the big_int string constructor. */
  method ReadInteger(s: string) returns (v: int)
    requires SignedInteger(s)
    ensures v == IntegerValue(s)
  {
    IntegerParses(s);
    var b := Parse(s);
    v := BigInts.Value(b.value);
  }

  /** operator>>: text that does not match the pattern is an error, a zero
      denominator is an error (from the constructor), and otherwise the
      fraction of the two values in lowest terms. */
  method Read(input: string) returns (r: Result<Fraction, FractionError>)
    ensures Fields(input).None? ==> r == Err(InvalidFormat)
    ensures Fields(input).Some? && Fields(input).value.1 == 0 ==> r == Err(ZeroDenominator)
    ensures Fields(input).Some? && Fields(input).value.1 != 0 ==>
      r.Ok? && Normal(r.value) && Val(r.value) == Fields(input).value.0 as real / Fields(input).value.1 as real
  {
    var slash := FindSlash(input, 0);
    var num, den := 0, 1;
    if slash.None? {
      if !SignedInteger(input) {
        return Err(InvalidFormat);
      }
      num := ReadInteger(input);
    } else {
      var numText, denText := input[..slash.value], input[slash.value + 1..];
      if !SignedInteger(numText) || !SignedInteger(denText) {
        return Err(InvalidFormat);
      }
      num := ReadInteger(numText);
      den := ReadInteger(denText);
    }
    r := Make(num, den);
  }

  /** What to_string writes for an integer matches `[-+]?\d+`, has no
      slash, and reads back as the integer. */
  lemma DecimalMatches(v: int)
    ensures SignedInteger(DecimalString(v)) && IntegerValue(DecimalString(v)) == v
    ensures forall k | 0 <= k < |DecimalString(v)| :: DecimalString(v)[k] != '/'
  {
    RoundTrip(v);
    var s := DecimalString(v);
    if v == 0 {
      assert DecimalValue("0") == DecimalValue("") * 10 + 0;
    } else if v < 0 {
      DigitsSpell(-v);
      assert s[1..] == DecimalDigits(-v);
    } else {
      DigitsSpell(v);
    }
  }

  /** The text of a fraction reads back as its numerator and denominator. */
  lemma FieldsOfText(f: Fraction)
    ensures Fields(ToText(f)) == Some((f.num, f.den))
  {
    var n, d := DecimalString(f.num), DecimalString(f.den);
    var s := ToText(f);
    DecimalMatches(f.num);
    DecimalMatches(f.den);
    assert s[..|n|] == n && s[|n| + 1..] == d && s[|n|] == '/';
    assert forall k | 0 <= k < |n| :: s[k] != '/' by {
      forall k | 0 <= k < |n|
        ensures s[k] != '/'
      {
        assert s[k] == n[k];
      }
    }
    SlashAt(s, |n|);
  }

  lemma SlashAt(s: string, i: nat)
    requires i < |s| && s[i] == '/' && forall k | 0 <= k < i :: s[k] != '/'
    ensures FindSlash(s, 0) == Some(i)
  {
  }

  /** Reading back what to_string writes gives the same fraction: the
      fields read are its own, and a normal fraction is the only normal one
      of its value. */
  method WriteThenRead(f: Fraction) returns (r: Result<Fraction, FractionError>)
    requires Normal(f)
    ensures r == Ok(f)
  {
    var text := ToText(f);
    FieldsOfText(f);
    r := Read(text);
    NormalUnique(r.value, f);
  }
}
