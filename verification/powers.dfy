/** Powers of two, and the logarithm the bounds of the sort family are stated in. */
module Powers {
  function Pow2(k: nat): (p: nat)
    ensures p > 0
  {
    if k == 0 then 1 else 2 * Pow2(k - 1)
  }

  function FloorLog2(n: nat): (k: nat)
    ensures n > 0 ==> Pow2(k) <= n < Pow2(k + 1)
  {
    if n <= 1 then 0 else 1 + FloorLog2(n / 2)
  }

  lemma {:induction false} Pow2Monotonic(j: nat, k: nat)
    requires j <= k
    ensures Pow2(j) <= Pow2(k)
    decreases k
  {
    if j < k {
      Pow2Monotonic(j, k - 1);
    }
  }

  lemma {:induction false} Log2Bound(k: nat, n: nat)
    requires Pow2(k) <= n
    ensures k <= FloorLog2(n)
  {
    if k > 0 {
      Log2Bound(k - 1, n / 2);
    }
  }

  lemma Log2Monotonic(m: nat, n: nat)
    requires m <= n
    ensures FloorLog2(m) <= FloorLog2(n)
  {
    if m > 0 {
      Log2Bound(FloorLog2(m), n);
    }
  }
}
