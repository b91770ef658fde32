/** The sequence engine of `src/main.rs`: the in-place step, the zero test, and the two drivers
    (`iterate`, which only stops at zero, and `checking_iteration`, which also stops on a repeated key). */
module Engine {
  import opened Numeric
  import opened Ducci
  import opened StorageKey
  import Convergence

  /** Outcome of a fuelled `iterate`: the counter on reaching zero, or the fuel ran out first. */
  datatype IterateResult = Converged(iter: nat) | OutOfFuel

  /** `is_zero`: scans for a non-zero entry and returns at the first one. */
  method IsZero(values: array<u64>) returns (zero: bool)
    ensures zero == AllZero(values[..])
  {
    for i := 0 to values.Length
      invariant forall k :: 0 <= k < i ==> values[k] == 0
    {
      if values[i] != 0 {
        return false;
      }
    }
    return true;
  }

  /** `is_zero_big_int`: the same scan over unbounded naturals. */
  method IsZeroBig(values: array<nat>) returns (zero: bool)
    ensures zero == AllZero(values[..])
  {
    for i := 0 to values.Length
      invariant forall k :: 0 <= k < i ==> values[k] == 0
    {
      if values[i] != 0 {
        return false;
      }
    }
    return true;
  }

  /** `subtract`: one step in place. Each word difference is taken in a wider signed type and its
      magnitude cast back, so nothing underflows; slot 0 is saved first for the last slot. */
  method Subtract(values: array<u64>)
    requires values.Length > 0
    modifies values
    ensures values[..] == Step(old(values[..]))
  {
    ghost var before: seq<nat> := values[..];
    var originalVal := values[0];
    for i := 0 to values.Length
      invariant forall k :: 0 <= k < i ==> values[k] == Dist(before[k], before[Next(k, |before|)])
      invariant forall k :: i <= k < values.Length ==> values[k] == before[k]
    {
      var wide: int;
      if i + 1 < values.Length {
        wide := values[i] as int - values[i + 1] as int;
      } else {
        wide := values[i] as int - originalVal as int;
      }
      values[i] := (if wide < 0 then -wide else wide) as u64;
    }
    StepAll(before);
  }

  /** `subtract_big_int`: the same step on unbounded naturals, each slot computed as `max - min`. */
  method SubtractBig(values: array<nat>)
    requires values.Length > 0
    modifies values
    ensures values[..] == Step(old(values[..]))
  {
    ghost var before: seq<nat> := values[..];
    var originalVal := values[0];
    for i := 0 to values.Length
      invariant forall k :: 0 <= k < i ==> values[k] == Dist(before[k], before[Next(k, |before|)])
      invariant forall k :: i <= k < values.Length ==> values[k] == before[k]
    {
      var a := values[i];
      var b := if i + 1 < values.Length then values[i + 1] else originalVal;
      var hi := if a >= b then a else b;
      var lo := if a <= b then a else b;
      values[i] := hi - lo;
    }
    StepAll(before);
  }

  /** `iterate`: steps until the vector is all zero. The counter starts at 1, so the result is
      one more than the number of steps; `fuel` caps the steps (the source loops forever on inputs
      that never reach zero). */
  method Iterate(values: array<u64>, fuel: nat) returns (r: IterateResult)
    modifies values
    ensures r.Converged? ==> 1 <= r.iter <= fuel + 1 && ConvergesAt(old(values[..]), r.iter - 1)
    ensures r.Converged? ==> values[..] == StepN(old(values[..]), r.iter - 1)
    ensures r.OutOfFuel? ==> values[..] == StepN(old(values[..]), fuel)
    ensures r.OutOfFuel? ==> forall j :: 0 <= j <= fuel ==> !AllZero(StepN(old(values[..]), j))
  {
    ghost var start: seq<nat> := values[..];
    var iter: nat := 1;
    var zero := IsZero(values);
    while !zero
      invariant 1 <= iter <= fuel + 1
      invariant values[..] == StepN(start, iter - 1)
      invariant zero == AllZero(values[..])
      invariant forall j :: 0 <= j < iter - 1 ==> !AllZero(StepN(start, j))
      decreases fuel + 1 - iter
    {
      if iter - 1 == fuel {
        return OutOfFuel;
      }
      iter := iter + 1;
      Subtract(values);
      zero := IsZero(values);
    }
    return Converged(iter);
  }

  /** `iterate_big_int`: `iterate` over unbounded naturals. */
  method IterateBig(values: array<nat>, fuel: nat) returns (r: IterateResult)
    modifies values
    ensures r.Converged? ==> 1 <= r.iter <= fuel + 1 && ConvergesAt(old(values[..]), r.iter - 1)
    ensures r.Converged? ==> values[..] == StepN(old(values[..]), r.iter - 1)
    ensures r.OutOfFuel? ==> values[..] == StepN(old(values[..]), fuel)
    ensures r.OutOfFuel? ==> forall j :: 0 <= j <= fuel ==> !AllZero(StepN(old(values[..]), j))
  {
    ghost var start: seq<nat> := values[..];
    var iter: nat := 1;
    var zero := IsZeroBig(values);
    while !zero
      invariant 1 <= iter <= fuel + 1
      invariant values[..] == StepN(start, iter - 1)
      invariant zero == AllZero(values[..])
      invariant forall j :: 0 <= j < iter - 1 ==> !AllZero(StepN(start, j))
      decreases fuel + 1 - iter
    {
      if iter - 1 == fuel {
        return OutOfFuel;
      }
      iter := iter + 1;
      SubtractBig(values);
      zero := IsZeroBig(values);
    }
    return Converged(iter);
  }

  /** Keys of the first `k` states of the run from `s`. */
  ghost function KeysBefore(s: seq<nat>, k: nat): set<string>
  {
    if k == 0 then {} else KeysBefore(s, k - 1) + {Key(StepN(s, k - 1))}
  }

  lemma {:induction false} KeysBeforeMembers(s: seq<nat>, k: nat)
    ensures forall j :: 0 <= j < k ==> Key(StepN(s, j)) in KeysBefore(s, k)
  {
    if k > 0 {
      KeysBeforeMembers(s, k - 1);
    }
  }

  lemma {:induction false} KeysBeforeWitness(s: seq<nat>, k: nat, key: string) returns (j: nat)
    requires key in KeysBefore(s, k)
    ensures j < k && Key(StepN(s, j)) == key
  {
    if key == Key(StepN(s, k - 1)) {
      j := k - 1;
    } else {
      j := KeysBeforeWitness(s, k - 1, key);
    }
  }

  /** All vectors of length `n` with entries at most `m`: a finite set. */
  ghost function BoundedVectors(n: nat, m: nat): set<seq<nat>>
  {
    if n == 0 then {[]} else set x: nat, t | x <= m && t in BoundedVectors(n - 1, m) :: [x] + t
  }

  lemma {:induction false} InBoundedVectors(s: seq<nat>, m: nat)
    requires Bounded(s, m)
    ensures s in BoundedVectors(|s|, m)
  {
    if s != [] {
      InBoundedVectors(s[1..], m);
      assert s == [s[0]] + s[1..];
    }
  }

  /** Every key a run over `u64` words of length `n` can produce. */
  ghost function KeyUniverse(n: nat): set<string>
  {
    set s | s in BoundedVectors(n, U64_LIMIT - 1) :: Key(s)
  }

  /** Every word vector's key is in the universe of its length. */
  lemma KeyInUniverse(s: seq<nat>)
    requires Bounded(s, U64_LIMIT - 1)
    ensures Key(s) in KeyUniverse(|s|)
  {
    InBoundedVectors(s, U64_LIMIT - 1);
  }

  /** A vector of `n` words. */
  ghost predicate IsWordVector(v: seq<nat>, n: nat)
  {
    |v| == n && Bounded(v, U64_LIMIT - 1)
  }

  /** The keys of all word vectors of one length form a finite set. */
  lemma FiniteKeys(n: nat) returns (universe: set<string>)
    ensures forall v {:trigger IsWordVector(v, n)} :: IsWordVector(v, n) ==> Key(v) in universe
  {
    universe := KeyUniverse(n);
    forall v | IsWordVector(v, n)
      ensures Key(v) in universe
    {
      KeyInUniverse(v);
    }
  }

  /** The first `k` states of the run from `s` are all non-zero and have pairwise distinct keys,
      stated the way `checking_iteration` establishes it: each state in turn is non-zero and its
      key is not yet recorded. */
  ghost predicate FreshRun(s: seq<nat>, k: nat)
  {
    k == 0 ||
    (FreshRun(s, k - 1) && !AllZero(StepN(s, k - 1)) && Key(StepN(s, k - 1)) !in KeysBefore(s, k - 1))
  }

  lemma {:induction false} FreshRunPrefix(s: seq<nat>, k: nat, m: nat)
    requires FreshRun(s, k) && m <= k
    ensures FreshRun(s, m)
    decreases k
  {
    if m < k {
      FreshRunPrefix(s, k - 1, m);
    }
  }

  /** In a fresh run no state is zero ... */
  lemma FreshRunNonZero(s: seq<nat>, k: nat, j: nat)
    requires FreshRun(s, k) && j < k
    ensures !AllZero(StepN(s, j))
  {
    FreshRunPrefix(s, k, j + 1);
  }

  /** ... and no two states share a key. */
  lemma FreshRunDistinct(s: seq<nat>, k: nat, j1: nat, j2: nat)
    requires FreshRun(s, k) && j1 < j2 < k
    ensures Key(StepN(s, j1)) != Key(StepN(s, j2))
  {
    FreshRunPrefix(s, k, j2 + 1);
    KeysBeforeMembers(s, j2);
  }

  /** Conversely, non-zero states with pairwise distinct keys form a fresh run. */
  lemma {:induction false} DistinctIsFreshRun(s: seq<nat>, k: nat)
    requires forall j :: 0 <= j < k ==> !AllZero(StepN(s, j))
    requires forall j1, j2 :: 0 <= j1 < j2 < k ==> Key(StepN(s, j1)) != Key(StepN(s, j2))
    ensures FreshRun(s, k)
  {
    if k > 0 {
      DistinctIsFreshRun(s, k - 1);
      if Key(StepN(s, k - 1)) in KeysBefore(s, k - 1) {
        var j := KeysBeforeWitness(s, k - 1, Key(StepN(s, k - 1)));
      }
    }
  }

  /** What `checking_iteration` promises about its counter `iter` and its flag `repeated`: no state
      before the last was zero or repeated an earlier state's key, and the last state is either all
      zero (`repeated` false) or has a key already recorded (`repeated` true). */
  ghost predicate CheckedStop(s: seq<nat>, iter: nat, repeated: bool)
  {
    1 <= iter && FreshRun(s, iter - 1) &&
    if repeated then
      !AllZero(StepN(s, iter - 1)) && Key(StepN(s, iter - 1)) in KeysBefore(s, iter - 1)
    else
      AllZero(StepN(s, iter - 1))
  }

  /** A repeat stop names an earlier state with the same key. */
  lemma RepeatWitness(s: seq<nat>, c: nat) returns (j: nat)
    requires CheckedStop(s, c, true)
    ensures j < c - 1 && Key(StepN(s, j)) == Key(StepN(s, c - 1))
  {
    j := KeysBeforeWitness(s, c - 1, Key(StepN(s, c - 1)));
  }

  /** One pass of `checking_iteration` that records a new key: the run stays fresh, the recorded
      set grows by that key, and it stays inside the universe it is drawn from. */
  lemma CheckAdvance(s: seq<nat>, k: nat, recorded: set<string>, universe: set<string>)
    requires FreshRun(s, k) && recorded == KeysBefore(s, k) && recorded <= universe
    requires !AllZero(StepN(s, k)) && Key(StepN(s, k)) !in recorded && Key(StepN(s, k)) in universe
    ensures FreshRun(s, k + 1) && recorded + {Key(StepN(s, k))} == KeysBefore(s, k + 1)
    ensures recorded + {Key(StepN(s, k))} <= universe
    ensures universe - (recorded + {Key(StepN(s, k))}) < universe - recorded
  {
  }

  /** `checking_iteration`: steps until the vector is all zero or its key was seen before. A key
      is inserted only when it is new, and a step follows every insertion. It needs no fuel:
      every key is drawn from a finite universe and is inserted at most once. */
  method CheckingIteration(values: array<u64>) returns (iter: nat, repeated: bool)
    modifies values
    ensures 1 <= iter && values[..] == StepN(old(values[..]), iter - 1)
    ensures CheckedStop(old(values[..]), iter, repeated)
  {
    ghost var start: seq<nat> := values[..];
    ghost var universe := FiniteKeys(values.Length);
    var previousVals: set<string> := {};
    iter := 1;
    var zero := IsZero(values);
    while !zero
      invariant 1 <= iter
      invariant values[..] == StepN(start, iter - 1)
      invariant zero == AllZero(values[..])
      invariant FreshRun(start, iter - 1)
      invariant previousVals == KeysBefore(start, iter - 1)
      invariant previousVals <= universe
      decreases universe - previousVals
    {
      var storageVal := Key(values[..]);
      if storageVal in previousVals {
        return iter, true;
      }
      assert IsWordVector(values[..], values.Length);
      CheckAdvance(start, iter - 1, previousVals, universe);
      previousVals := previousVals + {storageVal};
      Subtract(values);
      iter := iter + 1;
      zero := IsZero(values);
    }
    repeated := false;
  }

  /** A stop comes no later than the end of any fresh run: the stopping state is zero or repeats a key. */
  lemma StopIsFirst(s: seq<nat>, c: nat, r: bool, k: nat)
    requires CheckedStop(s, c, r) && FreshRun(s, k)
    ensures k <= c - 1
  {
    if c <= k {
      FreshRunPrefix(s, k, c);
    }
  }

  /** The counter and flag of `checking_iteration` are determined by the input: two stops that both
      meet `CheckedStop` are the same stop. */
  lemma CheckedStopDeterministic(s: seq<nat>, c1: nat, r1: bool, c2: nat, r2: bool)
    requires CheckedStop(s, c1, r1) && CheckedStop(s, c2, r2)
    ensures c1 == c2 && r1 == r2
  {
    StopIsFirst(s, c1, r1, c2 - 1);
    StopIsFirst(s, c2, r2, c1 - 1);
  }

  /** When the run reaches zero before any key repeats, `checking_iteration` returns exactly what
      `iterate` returns on the same input; and a stop without a repeat is a convergence. */
  lemma CheckingAgreesWithIterate(s: seq<nat>, k: nat)
    ensures CheckedStop(s, k + 1, false) <==> ConvergesAt(s, k) && FreshRun(s, k)
  {
    if FreshRun(s, k) {
      forall j | 0 <= j < k
        ensures !AllZero(StepN(s, j))
      {
        FreshRunNonZero(s, k, j);
      }
    }
  }

  /** On vectors whose entries stay below ten the key never aliases, so a reported repeat is a real
      repeated state, and the run from such a vector then never reaches zero. */
  lemma DigitRepeatIsCycle(s: seq<nat>, c: nat)
    requires Bounded(s, 9) && CheckedStop(s, c, true)
    ensures forall t: nat :: !AllZero(StepN(s, t))
  {
    var j := RepeatWitness(s, c);
    forall i | 0 <= i < c - 1
      ensures !AllZero(StepN(s, i))
    {
      FreshRunNonZero(s, c - 1, i);
    }
    StepNBounded(s, 9, j);
    StepNBounded(s, 9, c - 1);
    KeyInjectiveOnDigits(StepN(s, j), StepN(s, c - 1));
    Convergence.RepeatNeverConverges(s, j, c - 1);
  }

  lemma StepOfThree(a: nat, b: nat, c: nat)
    ensures Step([a, b, c]) == [Dist(a, b), Dist(b, c), Dist(c, a)]
  {
    StepAll([a, b, c]);
  }

  lemma StepOfFour(a: nat, b: nat, c: nat, d: nat)
    ensures Step([a, b, c, d]) == [Dist(a, b), Dist(b, c), Dist(c, d), Dist(d, a)]
  {
    StepAll([a, b, c, d]);
  }

  /** `[1,0,1,0]` becomes `[1,1,1,1]` and then `[0,0,0,0]`: `iterate` reports 3. */
  lemma AlternatingFourConverges()
    ensures ConvergesAt([1, 0, 1, 0], 2)
  {
    StepOfFour(1, 0, 1, 0);
    StepOfFour(1, 1, 1, 1);
    assert StepN([1, 0, 1, 0], 1) == [1, 1, 1, 1];
    assert StepN([1, 0, 1, 0], 2) == [0, 0, 0, 0];
    assert !AllZero(StepN([1, 0, 1, 0], 0)) by { assert StepN([1, 0, 1, 0], 0)[0] == 1; }
    assert !AllZero(StepN([1, 0, 1, 0], 1)) by { assert StepN([1, 0, 1, 0], 1)[0] == 1; }
  }

  /** Any count `iterate` can report for `[1,0,1,0]` is 3: two steps plus the initial 1. */
  lemma AlternatingFourCount(c: nat)
    requires 1 <= c && ConvergesAt([1, 0, 1, 0], c - 1)
    ensures c == 3
  {
    AlternatingFourConverges();
    ConvergesAtUnique([1, 0, 1, 0], c - 1, 2);
  }

  lemma LengthThreeStates()
    ensures StepN([0, 0, 1], 1) == [0, 1, 1] && StepN([0, 0, 1], 2) == [1, 0, 1]
    ensures StepN([0, 0, 1], 3) == [1, 1, 0] && StepN([0, 0, 1], 4) == [0, 1, 1]
  {
    StepOfThree(0, 0, 1);
    StepOfThree(0, 1, 1);
    StepOfThree(1, 0, 1);
    StepOfThree(1, 1, 0);
  }

  lemma LengthThreeNonZero()
    ensures forall j :: 0 <= j < 5 ==> !AllZero(StepN([0, 0, 1], j))
  {
    var s: seq<nat> := [0, 0, 1];
    LengthThreeStates();
    forall j | 0 <= j < 5
      ensures !AllZero(StepN(s, j))
    {
      assert j == 0 || j == 1 || j == 2 || j == 3 || j == 4;
      var d := if j == 0 then 2 else if j == 1 || j == 4 then 1 else 0;
      assert StepN(s, j)[d] == 1;
    }
  }

  lemma LengthThreeDistinctKeys()
    ensures forall j1, j2 :: 0 <= j1 < j2 < 4 ==> Key(StepN([0, 0, 1], j1)) != Key(StepN([0, 0, 1], j2))
  {
    var s: seq<nat> := [0, 0, 1];
    LengthThreeStates();
    forall j1, j2 | 0 <= j1 < j2 < 4
      ensures Key(StepN(s, j1)) != Key(StepN(s, j2))
    {
      assert j1 == 0 || j1 == 1 || j1 == 2;
      assert j2 == 1 || j2 == 2 || j2 == 3;
      var d := if (j1 == 0 && j2 == 1) || j1 == 2 then 1 else 0;
      assert StepN(s, j1)[d] != StepN(s, j2)[d];
      if Key(StepN(s, j1)) == Key(StepN(s, j2)) {
        KeyInjectiveOnDigits(StepN(s, j1), StepN(s, j2));
      }
    }
  }

  /** `[0,0,1]` runs through `[0,1,1]`, `[1,0,1]`, `[1,1,0]` and back to `[0,1,1]`:
      `checking_iteration` stops with the repeat flag and counter 5, and no step count reaches zero. */
  lemma LengthThreeCycles()
    ensures CheckedStop([0, 0, 1], 5, true)
    ensures forall t: nat :: !AllZero(StepN([0, 0, 1], t))
  {
    LengthThreeNonZero();
    LengthThreeDistinctKeys();
    LengthThreeStates();
    DistinctIsFreshRun([0, 0, 1], 4);
    KeysBeforeMembers([0, 0, 1], 4);
    assert Key(StepN([0, 0, 1], 1)) == Key(StepN([0, 0, 1], 4));
    DigitRepeatIsCycle([0, 0, 1], 5);
  }
}
