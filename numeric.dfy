/** Integer widths and power-of-two helpers shared by the Ducci engine and the search. */
module Numeric {

  /** Rust's `u64`: a machine word, kept as a subset of the mathematical integers so that
      sequences of words can be handed to the specification functions over `nat`. */
  type u64 = x: int | 0 <= x < 0x1_0000_0000_0000_0000

  /** One past the largest `u64`. */
  const U64_LIMIT: nat := 0x1_0000_0000_0000_0000

  function Pow2(k: nat): (r: nat)
    ensures r >= 1
  {
    if k == 0 then 1 else 2 * Pow2(k - 1)
  }

  /** `u64::is_power_of_two`: exactly one bit is set, that is, `n` is 2 raised to its own
      base-2 logarithm. */
  function IsPowerOfTwo(n: nat): (r: bool)
    ensures r <==> n == Pow2(Log2(n))
  {
    if n == 0 then false
    else if n == 1 then true
    else n % 2 == 0 && IsPowerOfTwo(n / 2)
  }

  /** Floor of the base-2 logarithm (0 for 0 and 1). */
  function Log2(n: nat): nat
  {
    if n <= 1 then 0 else 1 + Log2(n / 2)
  }

  /** Every power 2^k passes the test. */
  lemma {:induction false} Pow2IsPowerOfTwo(k: nat)
    ensures IsPowerOfTwo(Pow2(k))
  {
    if k > 0 {
      Pow2IsPowerOfTwo(k - 1);
      assert Pow2(k) / 2 == Pow2(k - 1);
    }
  }
}
