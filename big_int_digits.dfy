/** The magnitude of a big_int: little-endian digits in base 2^32. */
module BigIntDigits {
  import opened Powers

  /** BASE: one more than the largest unsigned int. */
  const Base: nat := 0x1_0000_0000

  type Digit = x: nat | x < 0x1_0000_0000

  /** The number the digits stand for, least significant first. */
  function Mag(ds: seq<Digit>): nat
  {
    if ds == [] then 0 else ds[0] + Base * Mag(ds[1..])
  }

  /** Base^k. */
  function Place(k: nat): (r: nat)
    ensures r >= 1
  {
    PowPositive(Base, k);
    Pow(Base, k)
  }

  function Zeros(k: nat): (r: seq<Digit>)
    ensures |r| == k && forall i | 0 <= i < k :: r[i] == 0
  {
    seq(k, i => 0)
  }

  /** No zero digit on top, and at least one digit: what optimise leaves. */
  predicate Trimmed(ds: seq<Digit>)
  {
    |ds| >= 1 && (|ds| == 1 || ds[|ds| - 1] != 0)
  }

  lemma PlaceNext(k: nat)
    ensures Place(k + 1) == Base * Place(k)
  {
  }

  lemma PlaceAdd(i: nat, j: nat)
    ensures Place(i + j) == Place(i) * Place(j)
  {
    PowAdd(Base, i, j);
  }

  lemma PlaceMonotonic(i: nat, j: nat)
    requires i <= j
    ensures Place(i) <= Place(j)
  {
    PowMonotonic(Base, i, j);
  }

  lemma {:induction false} MagAppend(ds: seq<Digit>, d: Digit)
    ensures Mag(ds + [d]) == Mag(ds) + d * Place(|ds|)
    decreases |ds|
  {
    if ds == [] {
      assert ds + [d] == [d];
      assert [d][1..] == [];
    } else {
      assert (ds + [d])[1..] == ds[1..] + [d];
      MagAppend(ds[1..], d);
      PlaceNext(|ds| - 1);
    }
  }

  lemma MagPrefix(ds: seq<Digit>, i: nat)
    requires i < |ds|
    ensures Mag(ds[..i + 1]) == Mag(ds[..i]) + ds[i] * Place(i)
  {
    assert ds[..i + 1] == ds[..i] + [ds[i]];
    MagAppend(ds[..i], ds[i]);
  }

  lemma {:induction false} MagBound(ds: seq<Digit>)
    ensures Mag(ds) < Place(|ds|)
    decreases |ds|
  {
    if ds != [] {
      MagBound(ds[1..]);
      PlaceNext(|ds| - 1);
    }
  }

  /** Splitting the digits at k splits the magnitude at Base^k. */
  lemma {:induction false} MagSplit(ds: seq<Digit>, k: nat)
    requires k <= |ds|
    ensures Mag(ds) == Mag(ds[..k]) + Place(k) * Mag(ds[k..])
    decreases k
  {
    if k == 0 {
      assert ds[..0] == [] && ds[0..] == ds;
    } else {
      assert ds[1..][..k - 1] == ds[1..k] && ds[1..][k - 1..] == ds[k..];
      MagSplit(ds[1..], k - 1);
      assert ds[..k][1..] == ds[1..k];
      var lo, p, m := Mag(ds[1..k]), Place(k - 1), Mag(ds[k..]);
      assert Mag(ds[1..]) == lo + p * m;
      assert Mag(ds[..k]) == ds[0] + Base * lo;
      PlaceNext(k - 1);
      SplitArith(ds[0], lo, p, m);
    }
  }

  lemma SplitArith(d: nat, lo: nat, p: nat, m: nat)
    ensures d + Base * (lo + p * m) == (d + Base * lo) + (Base * p) * m
  {
  }

  lemma MagConcat(xs: seq<Digit>, ys: seq<Digit>)
    ensures Mag(xs + ys) == Mag(xs) + Place(|xs|) * Mag(ys)
  {
    MagSplit(xs + ys, |xs|);
    assert (xs + ys)[..|xs|] == xs && (xs + ys)[|xs|..] == ys;
  }

  lemma {:induction false} MagZeros(k: nat)
    ensures Mag(Zeros(k)) == 0
    decreases k
  {
    if k > 0 {
      assert Zeros(k)[1..] == Zeros(k - 1);
      MagZeros(k - 1);
    }
  }

  /** Zeros on top change nothing. */
  lemma MagPadded(ds: seq<Digit>, k: nat)
    ensures Mag(ds + Zeros(k)) == Mag(ds)
  {
    MagConcat(ds, Zeros(k));
    MagZeros(k);
  }

  /** Zeros below multiply by a power of the base. */
  lemma MagShifted(ds: seq<Digit>, k: nat)
    ensures Mag(Zeros(k) + ds) == Place(k) * Mag(ds)
  {
    MagConcat(Zeros(k), ds);
    MagZeros(k);
  }

  /** A trimmed number of n digits is at least Base^(n-1). */
  lemma MagTop(ds: seq<Digit>)
    requires Trimmed(ds) && |ds| > 1
    ensures Mag(ds) >= Place(|ds| - 1)
  {
    var n := |ds|;
    MagSplit(ds, n - 1);
    assert ds[n - 1..] == [ds[n - 1]];
    assert Mag([ds[n - 1]]) == ds[n - 1] by {
      assert [ds[n - 1]][1..] == [];
    }
  }

  /** On trimmed digits the magnitude is zero exactly for the single digit
      zero: is_zero. */
  lemma MagZeroIff(ds: seq<Digit>)
    requires Trimmed(ds)
    ensures Mag(ds) == 0 <==> ds == [0]
  {
    if |ds| > 1 {
      MagTop(ds);
    } else {
      assert ds[1..] == [];
    }
  }

  /** A longer trimmed number is larger. */
  lemma MagLonger(xs: seq<Digit>, ys: seq<Digit>)
    requires Trimmed(xs) && Trimmed(ys) && |xs| < |ys|
    ensures Mag(xs) < Mag(ys)
  {
    MagBound(xs);
    MagTop(ys);
    PlaceMonotonic(|xs|, |ys| - 1);
  }

  /** Two trimmed digit sequences of one magnitude are the same. */
  lemma {:induction false} MagInjective(xs: seq<Digit>, ys: seq<Digit>)
    requires Trimmed(xs) && Trimmed(ys) && Mag(xs) == Mag(ys)
    ensures xs == ys
    decreases |xs|
  {
    assert |xs| == |ys| by {
      if |xs| < |ys| {
        MagLonger(xs, ys);
      } else if |ys| < |xs| {
        MagLonger(ys, xs);
      }
    }
    if |xs| == 1 {
      assert xs[1..] == [] && ys[1..] == [];
    } else {
      DivModUnique(Mag(xs), Base, Mag(xs[1..]), xs[0]);
      DivModUnique(Mag(ys), Base, Mag(ys[1..]), ys[0]);
      assert xs[1..][|xs| - 2] == xs[|xs| - 1] && ys[1..][|ys| - 2] == ys[|ys| - 1];
      MagInjective(xs[1..], ys[1..]);
      assert xs == [xs[0]] + xs[1..] && ys == [ys[0]] + ys[1..];
    }
  }

  /** Between numbers of one length with equal digits above i, the digit at
      i decides. */
  lemma MagDiffer(xs: seq<Digit>, ys: seq<Digit>, i: nat)
    requires |xs| == |ys| && i < |xs| && xs[i + 1..] == ys[i + 1..] && xs[i] < ys[i]
    ensures Mag(xs) < Mag(ys)
  {
    assert Mag(xs[..i + 1]) < Mag(ys[..i + 1]) by {
      MagPrefix(xs, i);
      MagPrefix(ys, i);
      MagBound(xs[..i]);
      assert |xs[..i]| == i;
      LowerDigit(Mag(xs[..i]), xs[i], ys[i], Place(i), Mag(ys[..i]));
    }
    MagSplit(xs, i + 1);
    MagSplit(ys, i + 1);
  }

  lemma LowerDigit(lo: nat, x: nat, y: nat, p: nat, lo': nat)
    requires lo < p && x < y
    ensures lo + x * p < lo' + y * p
  {
    MulLe(x + 1, y, p);
  }

  function Min(a: nat, b: nat): nat
  {
    if a < b then a else b
  }

  function Max(a: nat, b: nat): nat
  {
    if a < b then b else a
  }

  lemma Pow2Base()
    ensures Pow2(32) == Base
  {
    assert Pow2(4) == 16;
    Pow2Add(4, 4);
    Pow2Add(8, 8);
    Pow2Add(16, 16);
  }

  /** Base^k is 2^(32k). */
  lemma {:induction false} PlacePow2(k: nat)
    ensures Place(k) == Pow2(32 * k)
    decreases k
  {
    if k > 0 {
      PlacePow2(k - 1);
      PlaceNext(k - 1);
      Pow2Base();
      Pow2Add(32, 32 * (k - 1));
    }
  }

  /** A prefix grown by one place, counting positions past the end as zero
      (the loops that read a shorter operand as if padded with zeros). */
  lemma MagPrefixPadded(ds: seq<Digit>, i: nat)
    ensures Mag(ds[..Min(i + 1, |ds|)]) == Mag(ds[..Min(i, |ds|)]) + (if i < |ds| then ds[i] else 0) * Place(i)
  {
    if i < |ds| {
      MagPrefix(ds, i);
    }
  }

  /** A digit and its carry together stand for the sum they came from. */
  lemma CarrySplit(s: nat, p: nat)
    ensures (s % Base) * p + (s / Base) * (Base * p) == s * p
  {
    var q, m := s / Base, s % Base;
    assert s == q * Base + m;
    calc {
      m * p + q * (Base * p);
      == m * p + (q * Base) * p;
      == (m + q * Base) * p;
      == s * p;
    }
  }

  lemma MulLe(a: nat, b: nat, c: nat)
    requires a <= b
    ensures a * c <= b * c
  {
  }

  /** Dropping the k lowest digits divides by Base^k. */
  lemma MagDrop(ds: seq<Digit>, k: nat)
    requires k <= |ds|
    ensures Mag(ds[k..]) == Mag(ds) / Place(k)
    ensures Mag(ds[..k]) == Mag(ds) % Place(k)
  {
    MagSplit(ds, k);
    MagBound(ds[..k]);
    assert |ds[..k]| == k;
    SplitDivMod(Mag(ds), Place(k), Mag(ds[k..]), Mag(ds[..k]));
  }

  lemma SplitDivMod(n: nat, p: nat, hi: nat, lo: nat)
    requires p > 0 && lo < p && n == lo + p * hi
    ensures n / p == hi && n % p == lo
  {
    DivModUnique(n, p, hi, lo);
  }

  lemma DivModUnique(n: nat, d: nat, q: nat, r: nat)
    requires d > 0 && r < d && n == q * d + r
    ensures n / d == q && n % d == r
  {
    var q' := n / d;
    var r' := n % d;
    assert q' * d + r' == q * d + r;
    assert q' == q by {
      if q' > q {
        MulLe(q + 1, q', d);
      } else if q' < q {
        MulLe(q' + 1, q, d);
      }
    }
  }
}
