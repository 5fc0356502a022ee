/** Powers of two. */
module Powers {

  function Pow2(n: nat): (p: nat)
    ensures p >= 1
  {
    if n == 0 then 1 else 2 * Pow2(n - 1)
  }

  lemma {:induction false} Pow2Add(m: nat, n: nat)
    ensures Pow2(m + n) == Pow2(m) * Pow2(n)
  {
    if m > 0 { Pow2Add(m - 1, n); }
  }
}
