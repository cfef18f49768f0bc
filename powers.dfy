/** Integer replacements for the floating `pow` and `log2` the allocators call,
    and the powers used by the big-integer arithmetic. */
module Powers {

  function Pow2(k: nat): (r: nat)
    ensures r >= 1
  {
    if k == 0 then 1 else 2 * Pow2(k - 1)
  }

  function Pow(b: nat, k: nat): nat
  {
    if k == 0 then 1 else b * Pow(b, k - 1)
  }

  /** floor(log2 n) for n >= 1. */
  function FloorLog2(n: nat): (r: nat)
    requires n >= 1
    ensures Pow2(r) <= n < Pow2(r + 1)
  {
    if n == 1 then 0 else FloorLog2(n / 2) + 1
  }

  lemma Pow2Monotonic(i: nat, j: nat)
    requires i <= j
    ensures Pow2(i) <= Pow2(j)
  {
  }

  lemma Pow2Add(i: nat, j: nat)
    ensures Pow2(i + j) == Pow2(i) * Pow2(j)
  {
    if i > 0 {
      Pow2Add(i - 1, j);
    }
  }

  lemma PowAdd(b: nat, i: nat, j: nat)
    ensures Pow(b, i + j) == Pow(b, i) * Pow(b, j)
  {
    if i > 0 {
      PowAdd(b, i - 1, j);
    }
  }

  lemma PowPositive(b: nat, k: nat)
    requires b >= 1
    ensures Pow(b, k) >= 1
  {
  }

  lemma PowMonotonic(b: nat, i: nat, j: nat)
    requires b >= 1 && i <= j
    ensures Pow(b, i) <= Pow(b, j)
  {
    if i < j {
      PowMonotonic(b, i, j - 1);
      PowPositive(b, j - 1);
    }
  }

  /** Only the floor of log2 of n lies in [2^k, 2^(k+1)). */
  lemma FloorLog2Unique(n: nat, k: nat)
    requires Pow2(k) <= n < Pow2(k + 1)
    ensures FloorLog2(n) == k
  {
    var f := FloorLog2(n);
    if f < k {
      Pow2Monotonic(f + 1, k);
    } else if f > k {
      Pow2Monotonic(k + 1, f);
    }
  }

  lemma FloorLog2Below(n: nat, k: nat)
    requires 1 <= n < Pow2(k)
    ensures FloorLog2(n) < k
  {
    if FloorLog2(n) >= k {
      Pow2Monotonic(k, FloorLog2(n));
    }
  }
}
