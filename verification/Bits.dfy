/** Powers of two and single bits of a natural number. */
module Bits {

  function Pow2(k: nat): (r: nat)
    ensures r > 0
  {
    if k == 0 then 1 else 2 * Pow2(k - 1)
  }

  /** n & (1 << j) */
  predicate HasBit(n: nat, j: nat) {
    if j == 0 then n % 2 == 1 else HasBit(n / 2, j - 1)
  }

  /** n | (1 << j) */
  function SetBit(n: nat, j: nat): nat {
    if j == 0 then n - n % 2 + 1 else 2 * SetBit(n / 2, j - 1) + n % 2
  }

  lemma {:induction false} SetBitHas(n: nat, j: nat, k: nat)
    ensures HasBit(SetBit(n, j), k) <==> HasBit(n, k) || j == k
  {
    if j > 0 && k > 0 { SetBitHas(n / 2, j - 1, k - 1); }
  }

  lemma {:induction false} SetBitBound(n: nat, j: nat, k: nat)
    requires n < Pow2(k) && j < k
    ensures SetBit(n, j) < Pow2(k)
  {
    if j > 0 { SetBitBound(n / 2, j - 1, k - 1); }
  }

  /** The first eight bits, by their values. */
  lemma {:induction false} BitSays(n: nat, j: nat)
    requires j < 8
    ensures HasBit(n, j) <==> n / [1, 2, 4, 8, 16, 32, 64, 128][j] % 2 == 1
  {
    if j > 0 {
      BitSays(n / 2, j - 1);
      assert n / 2 / 2 == n / 4 && n / 2 / 4 == n / 8 && n / 2 / 8 == n / 16 && n / 2 / 16 == n / 32;
      assert n / 2 / 32 == n / 64 && n / 2 / 64 == n / 128;
    }
  }
}
