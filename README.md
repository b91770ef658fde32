# Ducci sequences — a verified model

This project models the computational core of the Ducci-sequence explorer in `src/main.rs`.
A Ducci step replaces every entry of a vector of non-negative integers with the absolute
difference between it and its cyclic successor. The program repeats the step until the vector
is all zero. For lengths that are not a power of two, it also stops when a state repeats.

The model covers these parts of the program:

- the step over 64-bit words and over unbounded naturals (`subtract`, `subtract_big_int`);
- the zero test (`is_zero`, `is_zero_big_int`);
- the three run loops (`iterate`, `iterate_big_int`, `checking_iteration`);
- the cycle-detection key (`get_storage_str`);
- the binary start-vector builder (`fill_array_binary`);
- the exact tribonacci window generators (`generate_trib_sequence` and the recurrence branch of
  `generate_trib_squence_big_int`);
- one round of the exhaustive search ("Part B"), which evaluates every binary vector of a given
  length and keeps the first one with the largest count.

Modules, leaves first:

- `Numeric`: the `u64` word type (a subset of `int`), powers of two and the power-of-two test.
- `Ducci`: the step as a function (`Step`, `StepN`), boundedness and the convergence predicate.
- `Convergence`: proves that every power-of-two length converges.
  - Parity: after 2^j steps, entry i has the parity of `u[i] + u[i + 2^j]`.
  - So after n = 2^k steps every entry is even.
  - The step commutes with doubling, so bounds halve; binary vectors reach zero within n steps.
    `Double` and `Halve` are helpers of this argument and model nothing in the program.
  - It also proves that a repeated state means the run never reaches zero.
- `StorageKey`: the decimal rendering of a word and the concatenated key.
- `Engine`: the imperative loops over arrays, each proved against `Step`/`StepN`.
- `BinaryFill`: `format!("{:b}")`, the zero padding and the digit-to-word conversion.
- `Tribonacci`: the recurrence, its sliding window and the exact `u64` limit of the start index.
- `Search`: the per-length evaluation, the reduction, and the enumeration of binary vectors.

## Model

| member | source | states |
|---|---|---|
| Numeric.Pow2 | src/main.rs:107 | 2^k is at least 1 (the number of binary vectors enumerated for a length) |
| Numeric.IsPowerOfTwo | src/main.rs:106 | `is_power_of_two` holds exactly when n equals 2^Log2(n), in both directions (so 0 fails and 1 passes) |
| Numeric.Pow2IsPowerOfTwo | src/main.rs:106 | every 2^k passes the power-of-two test |
| Ducci.Dist | src/main.rs:464-493 | the absolute difference: one argument is the other plus the result |
| Ducci.Next | src/main.rs:467-471 | the successor index is i + 1, or 0 after the last index (the wrap-around to `original_val`) |
| Ducci.NextIsSuccessorModulo | src/main.rs:467-471 | the successor index is (i + 1) mod n |
| Ducci.Step | src/main.rs:464-473 | one Ducci step keeps the length |
| Ducci.StepAt | src/main.rs:464-473 | entry k of the step is the absolute difference of entry k and its cyclic successor |
| Ducci.StepAll | src/main.rs:464-473 | the same for every entry at once |
| Ducci.StepN | src/main.rs:380-384 | repeated steps keep the length |
| Ducci.StepBounded | src/main.rs:464-473 | a bound on all entries survives a step (so {0,1} vectors stay {0,1}); each new entry is at most one of the two entries it came from |
| Ducci.StepNBounded | src/main.rs:380-384 | a bound on all entries survives any number of steps |
| Ducci.StepNAdd | src/main.rs:380-384 | a+b steps are a steps followed by b steps |
| Ducci.ZeroStays | src/main.rs:380-384 | the zero vector is a fixed point of the step |
| Ducci.ZeroAfter | src/main.rs:380-384 | once zero, the run stays zero |
| Ducci.ConvergesAtUnique | src/main.rs:378-391 | the first step count at which the run reaches zero is unique |
| Ducci.FirstZero | src/main.rs:378-391 | a run that is zero after k steps has a first zero at some f <= k |
| Convergence.Ahead | src/main.rs:467-471 | index i + p taken cyclically stays below n |
| Convergence.ParityAfterPow2 | src/main.rs:464-473 | after 2^j steps, entry i has the parity of u[i] + u[i + 2^j mod n] |
| Convergence.AllEvenAfterLength | src/main.rs:464-473 | on a length 2^k every entry is even after 2^k steps |
| Convergence.StepNDouble | src/main.rs:464-473 | stepping a doubled vector is doubling the stepped vector |
| Convergence.ConvergenceBound | src/main.rs:378-391 | the step bound for a non-zero entry bound m is at least n |
| Convergence.PowerOfTwoConverges | src/main.rs:116-117 | on a power-of-two length with entries at most m, the run is zero after ConvergenceBound(n, m) steps (so `iterate` returns on such lengths) |
| Convergence.BinaryPowerOfTwoConverges | src/main.rs:116-117 | a binary vector of power-of-two length n is zero after n steps |
| Convergence.ShiftBack | src/main.rs:395-415 | once state j equals state k, every later state equals an earlier one |
| Convergence.Periodic | src/main.rs:395-415 | after a repeat, every state of the run is one of the first k states |
| Convergence.RepeatNeverConverges | src/main.rs:395-415 | a run that repeats a state before reaching zero never reaches zero |
| StorageKey.DigitChar | src/main.rs:421 | a digit is rendered as the character with code 48 + d |
| StorageKey.Decimal | src/main.rs:421 | `to_string` of a word is a non-empty string of decimal digits |
| StorageKey.DecimalRoundTrip | src/main.rs:421 | reading back the decimal rendering gives the number |
| StorageKey.Key | src/main.rs:418-424 | the key is at least as long as the vector |
| StorageKey.KeyOfDigits | src/main.rs:418-424 | for entries below 10 the key is one digit per entry |
| StorageKey.KeyInjectiveOnDigits | src/main.rs:418-424 | for entries below 10 equal keys mean equal vectors |
| StorageKey.KeyAliases | src/main.rs:418-424 | without a delimiter `[1, 23]` and `[12, 3]` share the key "123" |
| Engine.IsZero | src/main.rs:443-450 | true exactly when every entry is 0 |
| Engine.IsZeroBig | src/main.rs:453-460 | true exactly when every entry is 0 |
| Engine.Subtract | src/main.rs:464-473 | the array becomes the Ducci step of its old contents; the magnitude of the wide difference always fits back into a u64 |
| Engine.SubtractBig | src/main.rs:476-493 | max - min gives the same step over naturals |
| Engine.Iterate | src/main.rs:378-391 | returns only at the first zero state, with count = 1 + number of steps, and leaves that state in the array |
| Engine.IterateBig | src/main.rs:427-440 | the same over naturals |
| Engine.KeysBeforeMembers | src/main.rs:402-409 | every key of an earlier state is in the set of seen keys |
| Engine.KeysBeforeWitness | src/main.rs:402-409 | every seen key belongs to an earlier state |
| Engine.InBoundedVectors | src/main.rs:395-415 | a bounded vector is in the finite set all keys are drawn from |
| Engine.KeyInUniverse | src/main.rs:418-424 | the key of any vector of u64 words lies in the finite key set of its length |
| Engine.FiniteKeys | src/main.rs:395-415 | one finite set holds the key of every word vector of a given length, so the seen-key set cannot grow forever |
| Engine.FreshRunPrefix | src/main.rs:400-411 | every prefix of a run of non-zero, newly keyed states is again such a run |
| Engine.FreshRunNonZero | src/main.rs:400 | no state inside such a run is zero |
| Engine.FreshRunDistinct | src/main.rs:402-407 | no two states inside such a run share a key |
| Engine.DistinctIsFreshRun | src/main.rs:400-411 | conversely, non-zero states with pairwise distinct keys form such a run |
| Engine.RepeatWitness | src/main.rs:402-405 | a repeat stop names an earlier state with the same key |
| Engine.CheckAdvance | src/main.rs:406-410 | inserting a new key after a non-zero state extends the run, adds exactly that key, and shrinks the keys not yet seen |
| Engine.CheckingIteration | src/main.rs:395-415 | stops at the first state that is zero or repeats an earlier key, reports which, with count = 1 + steps; always terminates |
| Engine.StopIsFirst | src/main.rs:395-415 | no run of distinct non-zero states goes past the stop |
| Engine.CheckedStopDeterministic | src/main.rs:395-415 | the count and the repeat flag are determined by the input |
| Engine.CheckingAgreesWithIterate | src/main.rs:378-415 | a stop without a repeat at count k+1 is exactly convergence at k with no repeated key, so `iterate` reports the same count |
| Engine.DigitRepeatIsCycle | src/main.rs:402-405 | on entries below 10 a reported repeat is a real cycle, so the run never reaches zero |
| Engine.StepOfThree | src/main.rs:464-473 | the step of a 3-vector, written out |
| Engine.StepOfFour | src/main.rs:464-473 | the step of a 4-vector, written out |
| Engine.AlternatingFourConverges | src/main.rs:378-391 | `[1,0,1,0]` first reaches zero after 2 steps |
| Engine.AlternatingFourCount | src/main.rs:378-391 | `iterate` reports 3 for `[1,0,1,0]` |
| Engine.LengthThreeStates | src/main.rs:464-473 | the run from `[0,0,1]`: `[0,1,1]`, `[1,0,1]`, `[1,1,0]`, `[0,1,1]` |
| Engine.LengthThreeNonZero | src/main.rs:400 | none of the first five states from `[0,0,1]` is zero |
| Engine.LengthThreeDistinctKeys | src/main.rs:402 | the first four states from `[0,0,1]` have distinct keys |
| Engine.LengthThreeCycles | src/main.rs:395-415 | `checking_iteration` on `[0,0,1]` reports a repeat with count 5, and that run never reaches zero |
| BinaryFill.BinaryString | src/main.rs:362 | `{:b}` of a count is a non-empty string of '0'/'1' |
| BinaryFill.BitOf | src/main.rs:372 | `char as u64 - 48` of a bit character is 0 or 1 |
| BinaryFill.CharsToBits | src/main.rs:371-373 | converting bit characters keeps the length and yields only 0 and 1 |
| BinaryFill.ZeroPadding | src/main.rs:366 | `"0".repeat(k)` is k zero characters |
| BinaryFill.FillArrayBinary | src/main.rs:360-374 | exactly n entries, each 0 or 1, whose most-significant-first value is the count |
| BinaryFill.CharsToBitsAt | src/main.rs:371-373 | entry j of the converted vector is the bit that character j stands for (`char as u64 - 48`) |
| BinaryFill.CharsToBitsAppend | src/main.rs:365-373 | converting a concatenation is concatenating the conversions |
| BinaryFill.ZeroCharsToBits | src/main.rs:366 | the padding converts to zeros |
| BinaryFill.LeadingZeros | src/main.rs:365-367 | leading zeros do not change the value |
| BinaryFill.BinaryStringValue | src/main.rs:362 | the digits of `{:b}` read back to the count |
| BinaryFill.PaddedValue | src/main.rs:360-374 | the padded digits read back to the count |
| BinaryFill.BinaryStringFits | src/main.rs:363 | the padding width `n_size - len` does not underflow exactly when 1 <= n and count < 2^n |
| BinaryFill.BitsValueBound | src/main.rs:360-374 | a binary vector of length n has value below 2^n |
| BinaryFill.BitsInjective | src/main.rs:360-374 | two binary vectors of equal length and equal value are equal |
| Tribonacci.TribRange | src/main.rs:190-200 | the range of values pushed has one entry per index |
| Tribonacci.LastFourPush | src/main.rs:196-200 | dropping the oldest of four before a push keeps the last four |
| Tribonacci.PushedStep | src/main.rs:190-200 | each loop index pushes its value exactly when it is at or past the start |
| Tribonacci.WindowPush | src/main.rs:190-202 | one loop iteration keeps the output equal to the last four values pushed |
| Tribonacci.PushedBase | src/main.rs:189-190 | before the loop the output is the seed `[0,0,1]` |
| Tribonacci.WindowComplete | src/main.rs:191-203 | when the loop exits (at s + 4, or at once for a negative start) the output is the window from the start, or `[0,0,1]` |
| Tribonacci.FullWindow | src/main.rs:191-203 | for a start s >= 0 the last four values pushed by index s + 4 are T(s)..T(s+3), including starts 0-2 that keep part of the seed |
| Tribonacci.TribMonotone | src/main.rs:191 | the sequence never decreases |
| Tribonacci.TribFromShift | src/main.rs:191-194 | driving the recurrence k times from T(j), T(j+1), T(j+2) yields T(j+k) |
| Tribonacci.TribFrom75 | src/main.rs:21 | the recurrence from the seed gives 12903063846126135669 after 75 steps |
| Tribonacci.TribFrom76 | src/main.rs:21 | and 23732434433862494162 after 76 |
| Tribonacci.Trib75 | src/main.rs:21 | T(75) = 12903063846126135669 |
| Tribonacci.Trib76 | src/main.rs:21 | T(76) = 23732434433862494162 |
| Tribonacci.MaxTribIndexExact | src/main.rs:21 | `MAX_TRIB_INDEX = 72` is exact: T(75) fits in a u64 and T(76) does not |
| Tribonacci.TribBelowLimit | src/main.rs:191 | every value the loop computes for start <= 72 fits in a u64 |
| Tribonacci.SlideStep | src/main.rs:192-195 | the sum of the three slots is the next value of the recurrence, and it fits in a u64 for indices up to 75 |
| Tribonacci.GenerateTribSequence | src/main.rs:188-204 | returns [T(s), T(s+1), T(s+2), T(s+3)] for 0 <= s <= 72 (no overflow) and `[0,0,1]` for a negative start |
| Tribonacci.GenerateTribSequenceBig | src/main.rs:208-237 | the recurrence branch returns [T(s), ..., T(s+3)] for every start |
| Tribonacci.WindowExamples | src/main.rs:188-204 | start 0 gives `[0,0,1,1]`, start 5 gives `[4,7,13,24]`, start -1 gives `[0,0,1]` |
| Search.Evaluate | src/main.rs:113-121 | index i at length n yields the binary vector of value i and the count of `iterate` (power of two, proved to terminate) or of `checking_iteration` |
| Search.LargestOfIsFirstMaximum | src/main.rs:124-128 | the kept result has a count at least every count; it is the first result that reaches the maximum, or the `("", 0)` placeholder when no count is positive |
| Search.Largest | src/main.rs:108-128 | starting from the `(String::new(), 0)` placeholder (`NO_RESULT`), the reduction loop computes the left-to-right reduction |
| Search.SearchLength | src/main.rs:104-128 | 2^n results in index order, each evaluated as above, and their reduction |
| Search.ResultsEnumerateBinaryVectors | src/main.rs:111-115 | every binary vector of length n appears exactly once, at the index equal to its value |
| Search.LargestIsLongestConvergence | src/main.rs:104-128 | for a power-of-two length, the kept count is at least 1 + the convergence time of every binary vector of that length |

## Left out

- Console and file I/O are not modelled: prompts, `println!`, the log file and `get_filename`/`file_exists`.
- Random start vectors are not modelled (`fill_array_rand`, `fill_array_trib`, `fill_array_trib_big_int`).
- The golden-ratio closed form is not modelled: `generate_trib_golden_ratio_big_int`, `power`, `big_decimal_to_big_int` and the lazily computed `BigDecimal` constants. This is decimal floating-point arithmetic. Only the recurrence branch of `generate_trib_squence_big_int` is modelled, although the program enables the golden-ratio branch by default.
- Concurrency is not modelled: the atomic length counter, the file mutex, the thread pool and Rayon's parallel map. The map over `0..count` is modelled as a sequential loop in index order, which is the order `collect` keeps.
- The outer endless loop over lengths and the Part A interactive loops are not modelled; `SearchLength` is one round of the outer loop.
- The debug text of a result (`format!("{:?}")`, " : ", "<Repeated>") is not modelled. The initial vector stands in for it, and `checking_iteration` reports a repeat flag instead of the "<Repeated>" prefix.
- Engine.Iterate: takes a `fuel` bound and returns `OutOfFuel` when it runs out. The source loops forever on a vector that never reaches zero. Part B passes fuel n on power-of-two lengths, and `Search.Evaluate` proves the bound is never hit.
- Engine.IterateBig: the same fuel bound.
- Engine.Iterate: the `i32`/`i128` iteration counters are unbounded naturals; overflow of the counter is not modelled.
- Engine.CheckingIteration: the counter is likewise unbounded. The `HashSet<String>` is a set of strings.
- Tribonacci.GenerateTribSequenceBig: the `u128` start index is a natural; the overflow of `start_index + 3` near `u128::MAX` is not modelled.
- Search.SearchLength: the lengths at which `2_u128.pow(n_size as u32)` overflows (n >= 128) are not modelled; the count is the exact 2^n. Lengths start at 1, where the source starts at 2.
- BinaryFill.FillArrayBinary: requires the binary digits of the count to fit in `n_size`. Otherwise `n_size - string.len()` underflows (a panic in debug builds). It returns the new vector instead of clearing and refilling the caller's.
- The counter starts at 1: `[1,0,1,0]` reports 3 and an empty vector reports 1 (the zero test succeeds at once).
- The cycle key is the undelimited concatenation: `KeyAliases` shows that it aliases in general, and `KeyInjectiveOnDigits` and `DigitRepeatIsCycle` show that it cannot alias on the 0/1 vectors Part B feeds it.
