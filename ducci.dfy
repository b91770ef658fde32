/** The Ducci map on vectors of naturals and the facts about it that the engine relies on. */
module Ducci {

  /** Absolute difference of two naturals, computed without ever going negative. */
  function Dist(a: nat, b: nat): (d: nat)
    ensures a == b + d || b == a + d
  {
    if a >= b then a - b else b - a
  }

  /** Index of the cyclic successor of slot `i` in a vector of length `n`. */
  function Next(i: nat, n: nat): (j: nat)
    requires i < n
    ensures j < n && (j == i + 1 || (j == 0 && i == n - 1))
  {
    if i + 1 < n then i + 1 else 0
  }

  /** `Next` is the successor modulo the length, as in `v[(i + 1) mod n]`. */
  lemma NextIsSuccessorModulo(i: nat, n: nat)
    requires i < n
    ensures Next(i, n) == (i + 1) % n
  {
    if i + 1 == n {
      assert (i + 1) % n == n % n == 0;
    }
  }

  /** One Ducci step: every slot becomes the distance to its cyclic successor. */
  function Step(s: seq<nat>): (r: seq<nat>)
    ensures |r| == |s|
  {
    StepFrom(s, 0)
  }

  /** Slots `i..` of the stepped vector. */
  function StepFrom(s: seq<nat>, i: nat): (r: seq<nat>)
    requires i <= |s|
    ensures |r| == |s| - i
    decreases |s| - i
  {
    if i == |s| then [] else [Dist(s[i], s[Next(i, |s|)])] + StepFrom(s, i + 1)
  }

  lemma {:induction false} StepFromAt(s: seq<nat>, i: nat, k: nat)
    requires i <= k < |s|
    ensures StepFrom(s, i)[k - i] == Dist(s[k], s[Next(k, |s|)])
    decreases k - i
  {
    if i < k {
      StepFromAt(s, i + 1, k);
    }
  }

  /** Slot `k` of the stepped vector is the distance between slot `k` and its cyclic successor. */
  lemma StepAt(s: seq<nat>, k: nat)
    requires k < |s|
    ensures Step(s)[k] == Dist(s[k], s[Next(k, |s|)])
  {
    StepFromAt(s, 0, k);
  }

  lemma StepAll(s: seq<nat>)
    ensures forall k :: 0 <= k < |s| ==> Step(s)[k] == Dist(s[k], s[Next(k, |s|)])
  {
    forall k | 0 <= k < |s| {
      StepAt(s, k);
    }
  }

  /** The state reached after `k` steps. */
  function StepN(s: seq<nat>, k: nat): (r: seq<nat>)
    ensures |r| == |s|
  {
    if k == 0 then s else Step(StepN(s, k - 1))
  }

  predicate AllZero(s: seq<nat>)
  {
    forall i :: 0 <= i < |s| ==> s[i] == 0
  }

  predicate Bounded(s: seq<nat>, m: nat)
  {
    forall i :: 0 <= i < |s| ==> s[i] <= m
  }

  /** The run from `s` first reaches the all-zero state after exactly `k` steps. */
  ghost predicate ConvergesAt(s: seq<nat>, k: nat)
  {
    AllZero(StepN(s, k)) && forall j :: 0 <= j < k ==> !AllZero(StepN(s, j))
  }

  /** A step never produces a value larger than both of the values it compares. */
  lemma StepBounded(s: seq<nat>, m: nat)
    requires Bounded(s, m)
    ensures Bounded(Step(s), m)
    ensures forall i :: 0 <= i < |s| ==> Step(s)[i] <= s[i] || Step(s)[i] <= s[Next(i, |s|)]
  {
    StepAll(s);
  }

  /** Hence every state of a run stays within the bound of the start; a 0/1 vector stays 0/1. */
  lemma {:induction false} StepNBounded(s: seq<nat>, m: nat, k: nat)
    requires Bounded(s, m)
    ensures Bounded(StepN(s, k), m)
  {
    if k > 0 {
      StepNBounded(s, m, k - 1);
      StepBounded(StepN(s, k - 1), m);
    }
  }

  /** Running `a` steps and then `b` more is running `a + b` steps. */
  lemma {:induction false} StepNAdd(s: seq<nat>, a: nat, b: nat)
    ensures StepN(s, a + b) == StepN(StepN(s, a), b)
  {
    if b > 0 {
      StepNAdd(s, a, b - 1);
    }
  }

  /** The all-zero state is a fixed point, so a run that reaches it stays there. */
  lemma {:induction false} ZeroStays(s: seq<nat>, k: nat)
    requires AllZero(s)
    ensures StepN(s, k) == s
  {
    if k > 0 {
      ZeroStays(s, k - 1);
      StepAll(s);
      assert Step(s) == s;
    }
  }

  lemma ZeroAfter(s: seq<nat>, j: nat, k: nat)
    requires j <= k && AllZero(StepN(s, j))
    ensures AllZero(StepN(s, k))
  {
    StepNAdd(s, j, k - j);
    ZeroStays(StepN(s, j), k - j);
  }

  /** The first all-zero index is unique, so a run's convergence count is well defined. */
  lemma ConvergesAtUnique(s: seq<nat>, j: nat, k: nat)
    requires ConvergesAt(s, j) && ConvergesAt(s, k)
    ensures j == k
  {
  }

  /** Whenever some state of the run is all zero, the run converges at a first index no later than it. */
  lemma {:induction false} FirstZero(s: seq<nat>, k: nat) returns (f: nat)
    requires AllZero(StepN(s, k))
    ensures f <= k && ConvergesAt(s, f)
  {
    if k > 0 && AllZero(StepN(s, k - 1)) {
      f := FirstZero(s, k - 1);
    } else {
      forall j | 0 <= j < k
        ensures !AllZero(StepN(s, j))
      {
        if AllZero(StepN(s, j)) {
          ZeroAfter(s, j, k - 1);
        }
      }
      f := k;
    }
  }
}
