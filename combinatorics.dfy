/** Binomial coefficients and their partial sums, used to count the faces the search may visit. */
module Combinatorics {

  /** C(n, k) by Pascal's rule; zero when k > n. */
  function Choose(n: nat, k: nat): nat
    decreases n
  {
    if k == 0 then 1
    else if n == 0 then 0
    else Choose(n - 1, k - 1) + Choose(n - 1, k)
  }

  /** The sum of C(n, i) for i = 0..m. */
  function SumChoose(n: nat, m: nat): (r: nat)
    ensures r >= 1
  {
    if m == 0 then Choose(n, 0) else SumChoose(n, m - 1) + Choose(n, m)
  }

  function Pow2(n: nat): nat
  {
    if n == 0 then 1 else 2 * Pow2(n - 1)
  }

  /** There is no way to choose more elements than there are. */
  lemma {:induction false} ChooseBeyond(n: nat, k: nat)
    requires k > n
    ensures Choose(n, k) == 0
  {
    if n > 0 {
      ChooseBeyond(n - 1, k - 1);
      ChooseBeyond(n - 1, k);
    }
  }

  /** Pascal's rule lifted to partial sums. */
  lemma {:induction false} SumChoosePascal(n: nat, m: nat)
    requires m >= 1
    ensures SumChoose(n + 1, m) == SumChoose(n, m) + SumChoose(n, m - 1)
  {
    if m > 1 {
      SumChoosePascal(n, m - 1);
    }
  }

  /** Summing a full row of Pascal's triangle gives 2^n. */
  lemma {:induction false} SumChooseRow(n: nat)
    ensures SumChoose(n, n) == Pow2(n)
  {
    if n > 0 {
      SumChooseRow(n - 1);
      SumChoosePascal(n - 1, n);
      ChooseBeyond(n - 1, n);
      assert SumChoose(n - 1, n) == SumChoose(n - 1, n - 1);
    }
  }
}
