/** The exact tribonacci recurrence of `generate_trib_sequence` and the recurrence branch of
    `generate_trib_squence_big_int`: a 3-slot sliding state and an output window of at most four values. */
module Tribonacci {
  import opened Numeric

  /** The largest start index whose window fits in `u64`. */
  const MAX_TRIB_INDEX: int := 72

  /** T0 = 0, T1 = 0, T2 = 1, Tk = Tk-1 + Tk-2 + Tk-3. */
  function Trib(k: nat): nat
  {
    if k < 2 then 0 else if k == 2 then 1 else Trib(k - 1) + Trib(k - 2) + Trib(k - 3)
  }

  /** The window the generators promise: four consecutive values from `start`, or the seed
      `[0, 0, 1]` when the start is negative and the loop never runs. */
  function TribWindow(start: int): seq<nat>
  {
    if start < 0 then [0, 0, 1] else [Trib(start), Trib(start + 1), Trib(start + 2), Trib(start + 3)]
  }

  /** `Trib(a), ..., Trib(b - 1)`. */
  function TribRange(a: nat, b: nat): (r: seq<nat>)
    ensures |r| == if b <= a then 0 else b - a
    decreases b
  {
    if b <= a then [] else TribRange(a, b - 1) + [Trib(b - 1)]
  }

  /** The last four elements (all of them when there are fewer). */
  function LastFour(s: seq<nat>): seq<nat>
  {
    if |s| <= 4 then s else s[|s| - 4..]
  }

  /** Everything pushed onto the output before the loop reaches index `i`: the seed, then every
      value from index `max(3, start)` on. */
  ghost function Pushed(start: int, i: nat): seq<nat>
  {
    [0, 0, 1] + TribRange(if start < 3 then 3 else start, i)
  }

  /** Dropping the oldest element of a full window before each push keeps the last four. */
  lemma LastFourPush(s: seq<nat>, x: nat)
    ensures LastFour(s + [x]) == (if |LastFour(s)| >= 4 then LastFour(s)[1..] else LastFour(s)) + [x]
  {
  }

  lemma PushedStep(start: int, i: nat)
    requires 3 <= i
    ensures Pushed(start, i + 1) == if i >= start then Pushed(start, i) + [Trib(i)] else Pushed(start, i)
  {
  }

  /** One loop step of the generators keeps the output equal to the last four pushed values. */
  lemma WindowPush(start: int, i: nat, window: seq<nat>)
    requires 3 <= i && window == LastFour(Pushed(start, i))
    ensures LastFour(Pushed(start, i + 1))
         == if i >= start then (if |window| >= 4 then window[1..] else window) + [Trib(i)] else window
  {
    PushedStep(start, i);
    if i >= start {
      LastFourPush(Pushed(start, i), Trib(i));
    }
  }

  lemma PushedBase(start: int)
    ensures Pushed(start, 3) == [0, 0, 1]
  {
  }

  /** When the loop exits (at `start + 4`, or at once for a negative start) the output is the window. */
  lemma WindowComplete(start: int, i: nat, window: seq<nat>)
    requires i == (if start < 0 then 3 else start + 4) && window == LastFour(Pushed(start, i))
    ensures window == TribWindow(start)
  {
    if start < 0 {
      assert Pushed(start, i) == [0, 0, 1];
    } else {
      FullWindow(start);
    }
  }

  /** For a start of at least 0 the last four values pushed by `start + 4` are T(start)..T(start + 3). */
  lemma FullWindow(start: nat)
    ensures LastFour(Pushed(start, start + 4)) == TribWindow(start)
  {
    if start >= 3 {
      assert TribRange(start, start + 1) == [Trib(start)];
      assert TribRange(start, start + 2) == [Trib(start), Trib(start + 1)];
      assert TribRange(start, start + 3) == [Trib(start), Trib(start + 1), Trib(start + 2)];
      var r := TribRange(start, start + 4);
      assert r == [Trib(start), Trib(start + 1), Trib(start + 2), Trib(start + 3)];
      assert LastFour([0, 0, 1] + r) == r;
    } else if start == 0 {
      assert TribRange(3, 4) == [Trib(3)];
    } else if start == 1 {
      assert TribRange(3, 5) == [Trib(3), Trib(4)];
      assert LastFour([0, 0, 1] + [Trib(3), Trib(4)]) == [0, 1, Trib(3), Trib(4)];
    } else {
      assert TribRange(3, 6) == [Trib(3), Trib(4), Trib(5)];
      assert LastFour([0, 0, 1] + [Trib(3), Trib(4), Trib(5)]) == [1, Trib(3), Trib(4), Trib(5)];
    }
  }

  lemma {:induction false} TribMonotone(a: nat, b: nat)
    requires a <= b
    ensures Trib(a) <= Trib(b)
    decreases b - a
  {
    if a < b {
      TribMonotone(a + 1, b);
    }
  }

  /** The recurrence driven from any three consecutive values. */
  function TribFrom(k: nat, a: nat, b: nat, c: nat): nat
  {
    if k == 0 then a else TribFrom(k - 1, b, c, a + b + c)
  }

  lemma {:induction false} TribFromShift(j: nat, k: nat)
    ensures TribFrom(k, Trib(j), Trib(j + 1), Trib(j + 2)) == Trib(j + k)
    decreases k
  {
    if k > 0 {
      TribFromShift(j + 1, k - 1);
    }
  }

  lemma TribFrom75()
    ensures TribFrom(75, 0, 0, 1) == 12903063846126135669
  {
    assert TribFrom(75, 0, 0, 1) == TribFrom(70, 4, 7, 13);
    assert TribFrom(70, 4, 7, 13) == TribFrom(65, 81, 149, 274);
    assert TribFrom(65, 81, 149, 274) == TribFrom(60, 1705, 3136, 5768);
    assert TribFrom(60, 1705, 3136, 5768) == TribFrom(55, 35890, 66012, 121415);
    assert TribFrom(55, 35890, 66012, 121415) == TribFrom(50, 755476, 1389537, 2555757);
    assert TribFrom(50, 755476, 1389537, 2555757) == TribFrom(45, 15902591, 29249425, 53798080);
    assert TribFrom(45, 15902591, 29249425, 53798080) == TribFrom(40, 334745777, 615693474, 1132436852);
    assert TribFrom(40, 334745777, 615693474, 1132436852) == TribFrom(35, 7046319384, 12960201916, 23837527729);
    assert TribFrom(35, 7046319384, 12960201916, 23837527729) == TribFrom(30, 148323355432, 272809183135, 501774317241);
    assert TribFrom(30, 148323355432, 272809183135, 501774317241) == TribFrom(25, 3122171529233, 5742568741225, 10562230626642);
    assert TribFrom(25, 3122171529233, 5742568741225, 10562230626642) == TribFrom(20, 65720971788709, 120879712950776, 222332455004452);
    assert TribFrom(20, 65720971788709, 120879712950776, 222332455004452) == TribFrom(15, 1383410902447554, 2544489349890656, 4680045560037375);
    assert TribFrom(15, 1383410902447554, 2544489349890656, 4680045560037375) == TribFrom(10, 29120472094716576, 53560898629395777, 98513851446415969);
    assert TribFrom(10, 29120472094716576, 53560898629395777, 98513851446415969) == TribFrom(5, 612979045863284359, 1127444240280152749, 2073693258389777176);
    assert TribFrom(5, 612979045863284359, 1127444240280152749, 2073693258389777176) == TribFrom(0, 12903063846126135669, 23732434433862494162, 43650752323191774040);
  }

  /** The index is a parameter pinned by `requires` rather than the numeral itself, which keeps the
      numeral out of `Trib`'s unfolding (a literal argument would unfold the whole recursion). */
  lemma Trib75(k: nat)
    requires k == 75
    ensures Trib(k) == 12903063846126135669
  {
    TribFromShift(0, k);
    TribFrom75();
  }

  lemma TribFrom76()
    ensures TribFrom(76, 0, 0, 1) == 23732434433862494162
  {
    assert TribFrom(76, 0, 0, 1) == TribFrom(71, 4, 7, 13);
    assert TribFrom(71, 4, 7, 13) == TribFrom(66, 81, 149, 274);
    assert TribFrom(66, 81, 149, 274) == TribFrom(61, 1705, 3136, 5768);
    assert TribFrom(61, 1705, 3136, 5768) == TribFrom(56, 35890, 66012, 121415);
    assert TribFrom(56, 35890, 66012, 121415) == TribFrom(51, 755476, 1389537, 2555757);
    assert TribFrom(51, 755476, 1389537, 2555757) == TribFrom(46, 15902591, 29249425, 53798080);
    assert TribFrom(46, 15902591, 29249425, 53798080) == TribFrom(41, 334745777, 615693474, 1132436852);
    assert TribFrom(41, 334745777, 615693474, 1132436852) == TribFrom(36, 7046319384, 12960201916, 23837527729);
    assert TribFrom(36, 7046319384, 12960201916, 23837527729) == TribFrom(31, 148323355432, 272809183135, 501774317241);
    assert TribFrom(31, 148323355432, 272809183135, 501774317241) == TribFrom(26, 3122171529233, 5742568741225, 10562230626642);
    assert TribFrom(26, 3122171529233, 5742568741225, 10562230626642) == TribFrom(21, 65720971788709, 120879712950776, 222332455004452);
    assert TribFrom(21, 65720971788709, 120879712950776, 222332455004452) == TribFrom(16, 1383410902447554, 2544489349890656, 4680045560037375);
    assert TribFrom(16, 1383410902447554, 2544489349890656, 4680045560037375) == TribFrom(11, 29120472094716576, 53560898629395777, 98513851446415969);
    assert TribFrom(11, 29120472094716576, 53560898629395777, 98513851446415969) == TribFrom(6, 612979045863284359, 1127444240280152749, 2073693258389777176);
    assert TribFrom(6, 612979045863284359, 1127444240280152749, 2073693258389777176) == TribFrom(1, 12903063846126135669, 23732434433862494162, 43650752323191774040);
  }

  /** Pinned by `requires` for the same reason as `Trib75`. */
  lemma Trib76(k: nat)
    requires k == 76
    ensures Trib(k) == 23732434433862494162
  {
    TribFromShift(0, k);
    TribFrom76();
  }

  /** 72 is exactly the last start index whose window fits in a `u64`: T75 fits and T76 does not.
      The index is pinned by `requires` for the same reason as in `Trib75`. */
  lemma MaxTribIndexExact(k: nat)
    requires k == MAX_TRIB_INDEX
    ensures Trib(k + 3) < U64_LIMIT <= Trib(k + 4)
  {
    Trib75(k + 3);
    Trib76(k + 4);
  }

  /** Every index up to `MAX_TRIB_INDEX + 3` has a value below 2^64 (`k` is pinned as in `Trib75`). */
  lemma TribBelowLimit(i: nat, k: nat)
    requires k == MAX_TRIB_INDEX && i <= k + 3
    ensures Trib(i) < U64_LIMIT
  {
    var top := k + 3;
    Trib75(top);
    TribMonotone(i, top);
  }

  /** One pass of the generators' loop body: the sum of the three slots is the next value of the
      recurrence, and for indices up to `MAX_TRIB_INDEX + 3` it fits in a `u64`. */
  lemma SlideStep(i: nat, a: nat, b: nat, c: nat)
    requires 3 <= i <= MAX_TRIB_INDEX + 3
    requires a == Trib(i - 3) && b == Trib(i - 2) && c == Trib(i - 1)
    ensures a + b + c == Trib(i) && a + b + c < U64_LIMIT
  {
    TribBelowLimit(i, MAX_TRIB_INDEX);
  }

  /** `generate_trib_sequence`: for a start index up to `MAX_TRIB_INDEX` (no `u64` overflow), the
      window of four consecutive values from the start, or `[0, 0, 1]` for a negative start. */
  method GenerateTribSequence(startIndex: int) returns (returnVals: seq<u64>)
    requires startIndex <= MAX_TRIB_INDEX
    ensures returnVals == TribWindow(startIndex)
  {
    var previousVals := new u64[3];
    previousVals[0], previousVals[1], previousVals[2] := 0, 0, 1;
    returnVals := [0, 0, 1];
    PushedBase(startIndex);
    var i := 3;
    while i <= startIndex + 3
      invariant 3 <= i <= if startIndex < 0 then 3 else startIndex + 4
      invariant previousVals[0] == Trib(i - 3) && previousVals[1] == Trib(i - 2) && previousVals[2] == Trib(i - 1)
      invariant returnVals == LastFour(Pushed(startIndex, i))
    {
      SlideStep(i, previousVals[0], previousVals[1], previousVals[2]);
      var nextVal: u64 := previousVals[0] + previousVals[1] + previousVals[2];
      previousVals[0] := previousVals[1];
      previousVals[1] := previousVals[2];
      previousVals[2] := nextVal;
      WindowPush(startIndex, i, returnVals);
      if i >= startIndex {
        if |returnVals| >= 4 {
          returnVals := returnVals[1..];
        }
        returnVals := returnVals + [nextVal];
      }
      i := i + 1;
    }
    WindowComplete(startIndex, i, returnVals);
  }

  /** The recurrence branch of `generate_trib_squence_big_int`: the same window over unbounded
      naturals, for every start index. */
  method GenerateTribSequenceBig(startIndex: nat) returns (returnVals: seq<nat>)
    ensures returnVals == TribWindow(startIndex)
  {
    var previousVals := new nat[3];
    previousVals[0], previousVals[1], previousVals[2] := 0, 0, 1;
    returnVals := [0, 0, 1];
    PushedBase(startIndex);
    var i := 3;
    while i <= startIndex + 3
      invariant 3 <= i <= startIndex + 4
      invariant previousVals[0] == Trib(i - 3) && previousVals[1] == Trib(i - 2) && previousVals[2] == Trib(i - 1)
      invariant returnVals == LastFour(Pushed(startIndex, i))
    {
      var nextVal := previousVals[0] + previousVals[1] + previousVals[2];
      previousVals[0] := previousVals[1];
      previousVals[1] := previousVals[2];
      previousVals[2] := nextVal;
      WindowPush(startIndex, i, returnVals);
      if i >= startIndex {
        if |returnVals| >= 4 {
          returnVals := returnVals[1..];
        }
        returnVals := returnVals + [nextVal];
      }
      i := i + 1;
    }
    WindowComplete(startIndex, i, returnVals);
  }

  lemma WindowExamples()
    ensures TribWindow(0) == [0, 0, 1, 1] && TribWindow(5) == [4, 7, 13, 24] && TribWindow(-1) == [0, 0, 1]
  {
  }
}
