/** Which runs of the Ducci map reach the all-zero state: power-of-two lengths always do,
    and a run that revisits a state without having reached zero never does. */
module Convergence {
  import opened Numeric
  import opened Ducci

  /** The slot `p` places further round a cycle of length `n` (for `p <= n`). */
  function Ahead(i: nat, p: nat, n: nat): (r: nat)
    requires i < n && p <= n
    ensures r < n && (r == i + p || r + n == i + p)
  {
    if i + p < n then i + p else i + p - n
  }

  /** After `2^j` steps (no more than the length) every slot has the parity of the sum of its own
      starting value and the starting value `2^j` slots further round the cycle: modulo 2 the map is
      `x + shift(x)`, and squaring it doubles the shift. */
  lemma {:induction false} ParityAfterPow2(u: seq<nat>, j: nat, i: nat)
    requires i < |u| && Pow2(j) <= |u|
    ensures (StepN(u, Pow2(j))[i] + u[i] + u[Ahead(i, Pow2(j), |u|)]) % 2 == 0
    decreases j
  {
    var n := |u|;
    if j == 0 {
      assert StepN(u, 1) == Step(u);
      StepAt(u, i);
    } else {
      var p := Pow2(j - 1);
      var w := StepN(u, p);
      StepNAdd(u, p, p);
      assert Pow2(j) == p + p;
      var i1 := Ahead(i, p, n);
      assert Ahead(i1, p, n) == Ahead(i, p + p, n);
      ParityAfterPow2(w, j - 1, i);
      ParityAfterPow2(u, j - 1, i);
      ParityAfterPow2(u, j - 1, i1);
    }
  }

  /** For a vector of power-of-two length `n`, the state after `n` steps is entirely even. */
  lemma AllEvenAfterLength(u: seq<nat>, k: nat)
    requires |u| == Pow2(k)
    ensures forall i :: 0 <= i < |u| ==> StepN(u, |u|)[i] % 2 == 0
  {
    forall i | 0 <= i < |u|
      ensures StepN(u, |u|)[i] % 2 == 0
    {
      ParityAfterPow2(u, k, i);
    }
  }

  function Double(s: seq<nat>): (r: seq<nat>)
    ensures |r| == |s| && forall i :: 0 <= i < |s| ==> r[i] == 2 * s[i]
  {
    seq(|s|, i requires 0 <= i < |s| => 2 * s[i])
  }

  function Halve(s: seq<nat>): (r: seq<nat>)
    ensures |r| == |s| && forall i :: 0 <= i < |s| ==> 2 * r[i] <= s[i] < 2 * r[i] + 2
  {
    seq(|s|, i requires 0 <= i < |s| => s[i] / 2)
  }

  /** The step commutes with doubling every slot. */
  lemma {:induction false} StepNDouble(s: seq<nat>, k: nat)
    ensures StepN(Double(s), k) == Double(StepN(s, k))
  {
    if k > 0 {
      StepNDouble(s, k - 1);
      var t := StepN(s, k - 1);
      StepAll(t);
      StepAll(Double(t));
      assert Step(Double(t)) == Double(Step(t));
    }
  }

  /** Steps sufficient for a vector of length `n` with entries at most `m`: `n` steps per bit of `m`. */
  function ConvergenceBound(n: nat, m: nat): (b: nat)
    ensures m > 0 ==> b >= n
  {
    if m == 0 then 0 else n + ConvergenceBound(n, m / 2)
  }

  /** Every run on a vector of power-of-two length reaches the all-zero state, within
      `ConvergenceBound(|s|, m)` steps when no entry exceeds `m`: after `|s|` steps all entries are
      even, and halving them gives a run with a smaller bound. */
  lemma {:induction false} PowerOfTwoConverges(s: seq<nat>, m: nat)
    requires IsPowerOfTwo(|s|) && Bounded(s, m)
    ensures AllZero(StepN(s, ConvergenceBound(|s|, m)))
    decreases m
  {
    var n := |s|;
    if m > 0 {
      var e := StepN(s, n);
      AllEvenAfterLength(s, Log2(n));
      StepNBounded(s, m, n);
      var h := Halve(e);
      assert Double(h) == e;
      assert Bounded(h, m / 2);
      var rest := ConvergenceBound(n, m / 2);
      PowerOfTwoConverges(h, m / 2);
      StepNDouble(h, rest);
      StepNAdd(s, n, rest);
    }
  }

  /** The case of the exhaustive search: a 0/1 vector of power-of-two length `n` is all zero after `n` steps. */
  lemma BinaryPowerOfTwoConverges(s: seq<nat>)
    requires IsPowerOfTwo(|s|) && Bounded(s, 1)
    ensures AllZero(StepN(s, |s|))
  {
    var n := |s|;
    assert ConvergenceBound(n, 1) == n by {
      assert 1 / 2 == 0;
      assert ConvergenceBound(n, 0) == 0;
    }
    PowerOfTwoConverges(s, 1);
  }

  lemma ShiftBack(s: seq<nat>, j: nat, k: nat, t: nat)
    requires j < k <= t && StepN(s, j) == StepN(s, k)
    ensures StepN(s, t) == StepN(s, j + (t - k))
  {
    StepNAdd(s, k, t - k);
    StepNAdd(s, j, t - k);
  }

  /** Once the run meets state `j` again at step `k`, every later state is one of the first `k`. */
  lemma {:induction false} Periodic(s: seq<nat>, j: nat, k: nat, t: nat) returns (i: nat)
    requires j < k && StepN(s, j) == StepN(s, k)
    ensures i < k && StepN(s, t) == StepN(s, i)
    decreases t
  {
    if t < k {
      i := t;
    } else {
      ShiftBack(s, j, k, t);
      i := Periodic(s, j, k, j + (t - k));
    }
  }

  /** A run that meets a state it has already been in, without having passed through zero,
      cycles forever and never reaches zero. */
  lemma RepeatNeverConverges(s: seq<nat>, j: nat, k: nat)
    requires j < k && StepN(s, j) == StepN(s, k)
    requires forall i :: 0 <= i < k ==> !AllZero(StepN(s, i))
    ensures forall t: nat :: !AllZero(StepN(s, t))
  {
    forall t: nat
      ensures !AllZero(StepN(s, t))
    {
      var i := Periodic(s, j, k, t);
    }
  }
}
