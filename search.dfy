/** Part B of the program, run for one vector length: every binary starting vector of that
    length is evaluated in index order, and the first one with the largest count is kept. */
module Search {
  import opened Numeric
  import opened Ducci
  import opened BinaryFill
  import opened Engine
  import Convergence

  /** One evaluated start: the starting vector (the source keeps its debug text) and its count. */
  datatype SearchResult = SearchResult(initial: seq<nat>, count: int)

  /** The placeholder the reduction starts from before any result is seen. */
  const NO_RESULT := SearchResult([], 0)

  /** What evaluating index `i` at length `n` yields: the binary vector whose value is `i`, and the
      count `iterate` reports for power-of-two lengths or `checking_iteration` for the others. */
  ghost predicate Evaluated(n: nat, i: nat, r: SearchResult)
  {
    |r.initial| == n && IsBinary(r.initial) && BitsValue(r.initial) == i &&
    if IsPowerOfTwo(n) then
      1 <= r.count && ConvergesAt(r.initial, r.count - 1)
    else
      1 <= r.count && (CheckedStop(r.initial, r.count, true) || CheckedStop(r.initial, r.count, false))
  }

  /** The body of Part B's parallel map for one index. */
  method Evaluate(nSize: nat, i: nat) returns (r: SearchResult)
    requires 1 <= nSize && i < Pow2(nSize)
    ensures Evaluated(nSize, i, r)
  {
    BinaryStringFits(i, nSize);
    var bits := FillArrayBinary(i, nSize);
    var values := new u64[nSize](k requires 0 <= k < nSize => bits[k]);
    assert values[..] == bits;
    if IsPowerOfTwo(nSize) {
      Convergence.BinaryPowerOfTwoConverges(bits);
      var outcome := Iterate(values, nSize);
      match outcome {
        case Converged(c) =>
          r := SearchResult(bits, c);
        case OutOfFuel =>
          assert false;
      }
    } else {
      var c, repeated := CheckingIteration(values);
      r := SearchResult(bits, c);
    }
  }

  /** The reduction `if largest.1 < output.1 { largest = output }` over a prefix of the results. */
  function LargestOf(results: seq<SearchResult>): SearchResult
  {
    if |results| == 0 then NO_RESULT
    else
      var best := LargestOf(results[..|results| - 1]);
      if best.count < results[|results| - 1].count then results[|results| - 1] else best
  }

  /** The reduction keeps a count at least as large as every count and as the placeholder's, and it
      is the placeholder exactly when no count is positive; otherwise it is the FIRST result that
      reaches the maximum (a later tie does not replace it). */
  lemma {:induction false} LargestOfIsFirstMaximum(results: seq<SearchResult>)
    ensures forall k :: 0 <= k < |results| ==> results[k].count <= LargestOf(results).count
    ensures 0 <= LargestOf(results).count
    ensures (forall k :: 0 <= k < |results| ==> results[k].count <= 0) ==> LargestOf(results) == NO_RESULT
    ensures (exists k :: 0 <= k < |results| && 0 < results[k].count) ==>
              exists k :: 0 <= k < |results| && LargestOf(results) == results[k] &&
                forall j :: 0 <= j < k ==> results[j].count < results[k].count
  {
    if |results| > 0 {
      var n := |results| - 1;
      var init := results[..n];
      LargestOfIsFirstMaximum(init);
      assert forall k :: 0 <= k < n ==> init[k] == results[k];
      if LargestOf(init).count < results[n].count {
        assert LargestOf(results) == results[n];
      } else if exists k :: 0 <= k < n && 0 < init[k].count {
        var k :| 0 <= k < n && LargestOf(init) == init[k] &&
          forall j :: 0 <= j < k ==> init[j].count < init[k].count;
        assert LargestOf(results) == results[k];
      }
    }
  }

  /** The loop `for output in results` of Part B. */
  method Largest(results: seq<SearchResult>) returns (largest: SearchResult)
    ensures largest == LargestOf(results)
  {
    largest := NO_RESULT;
    for k := 0 to |results|
      invariant largest == LargestOf(results[..k])
    {
      assert results[..k + 1][..k] == results[..k];
      if largest.count < results[k].count {
        largest := results[k];
      }
    }
    assert results[..|results|] == results;
  }

  /** Part B for one length `nSize`: the results of all 2^nSize binary starts, in index order, and
      the largest of them. */
  method SearchLength(nSize: nat) returns (results: seq<SearchResult>, largest: SearchResult)
    requires 1 <= nSize
    ensures |results| == Pow2(nSize)
    ensures forall i :: 0 <= i < |results| ==> Evaluated(nSize, i, results[i])
    ensures largest == LargestOf(results)
  {
    var count := Pow2(nSize);
    results := [];
    var i := 0;
    while i < count
      invariant 0 <= i <= count && |results| == i
      invariant forall k :: 0 <= k < i ==> Evaluated(nSize, k, results[k])
    {
      var r := Evaluate(nSize, i);
      results := results + [r];
      i := i + 1;
    }
    largest := Largest(results);
  }

  /** The 2^n indices enumerate the binary vectors of length n: each appears at exactly one index,
      the one whose value it is. */
  lemma ResultsEnumerateBinaryVectors(n: nat, results: seq<SearchResult>, s: seq<nat>)
    requires |results| == Pow2(n)
    requires forall i :: 0 <= i < |results| ==> Evaluated(n, i, results[i])
    requires |s| == n && IsBinary(s)
    ensures BitsValue(s) < |results| && results[BitsValue(s)].initial == s
    ensures forall i :: 0 <= i < |results| && results[i].initial == s ==> i == BitsValue(s)
  {
    BitsValueBound(s);
    var i := BitsValue(s);
    assert Evaluated(n, i, results[i]);
    BitsInjective(results[i].initial, s);
  }

  /** For a power-of-two length the reported largest count is the longest convergence time over
      all binary starting vectors of that length. */
  lemma LargestIsLongestConvergence(n: nat, results: seq<SearchResult>, s: seq<nat>, t: nat)
    requires IsPowerOfTwo(n) && |results| == Pow2(n)
    requires forall i :: 0 <= i < |results| ==> Evaluated(n, i, results[i])
    requires |s| == n && IsBinary(s) && ConvergesAt(s, t)
    ensures t + 1 <= LargestOf(results).count
  {
    ResultsEnumerateBinaryVectors(n, results, s);
    var i := BitsValue(s);
    assert Evaluated(n, i, results[i]);
    ConvergesAtUnique(s, t, results[i].count - 1);
    LargestOfIsFirstMaximum(results);
  }
}
