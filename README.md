# jinx-theorem numeric kernels in Dafny

This project models the three computational kernels of the jinx-theorem scripts and proves what each computes:

- **Prime sieve** (`get_primes`, millionaire_scan.py). A boolean array of length `n` is set to true. Indices 0 and 1 are cleared. For every `i` from 2 to `int(n**0.5)` that is still marked, the slice `p[i*i::i]` is cleared. The marks are returned as 0.0/1.0. Module `Sieve` keeps the in-place `array<bool>`. `ClearMultiples` is the slice assignment. `GetPrimes` is proved to return 1.0 at index `k` exactly when `k` is prime. The outer loop's invariant is `Survives`: a mark survives until a divisor `d` with `d*d <= k` has been processed.
- **Perfect-square field** (`get_squares`, jinx_square.py). A zeroed array of length `n` gets 1.0 at `i*i` for `1 <= i <= int(np.sqrt(n-1))`. Module `SquareField` proves three things: every write is in bounds, exactly the nonzero perfect squares below `n` are marked, and the number of ones equals the loop bound.
- **Spectral coherence score** (`compute_spectral_coherence` and `GAMMAS`, diagdevice.py). The decimal square root of `n` is rounded half-up. The phase offset is the distance between the root and that integer. The score is the mean of `cos(gamma * offset)` over the five reference frequencies, or 0.0 when the square root raises. Module `Coherence` characterises the rounded root on integers alone: the unique `k >= 0` with `n <= k*k + k` and, for `k > 0`, `k*k - k < n`. A tie is impossible. The offset is proved to lie in `[0, 1/2]`. A perfect square, 0 and 1 included, scores exactly 1.0. Every score lies in `[-1, 1]`. The docstring promises `[0, 1]`, but the code does not guarantee it: nothing keeps the cosine terms non-negative.

Shared modules: `IntRoot` holds the exact integer square root `FloorSqrt`, which stands for the floating-point loop bounds. `Results` holds the `Result` type used for the calls that raise.

Behaviour of the code worth noting:

- The sieve's outer loop runs to `int(n**0.5)`, that is `floor(sqrt(n))`. When `n` is a perfect square this is one candidate more than `floor(sqrt(n-1))`, and that candidate clears nothing, because its square is `n` itself.
- `get_primes` raises for a negative `n`, because the array cannot be allocated.
- `get_squares` raises for `n = 0`, because the square root of -1 is NaN and `int` rejects it. It also raises for a negative `n`.

## Model

| member | source | states |
|---|---|---|
| IntRoot.FloorSqrt | millionaire_scan.py:23 | the exact value of the truncated float root: `r*r <= n < (r+1)*(r+1)` |
| Sieve.ClearMultiples | millionaire_scan.py:24 | `p[i*i::i] = False` clears exactly the indices `k >= i*i` that `i` divides and leaves every other entry unchanged |
| Sieve.CandidateInRange | millionaire_scan.py:23-24 | every candidate `2 <= i <= floor(sqrt(n))` is a valid index of `p` |
| Sieve.SurvivesStep | millionaire_scan.py:23-24 | loop invariant step: after candidate `i`, an index is marked iff it was marked and is not a multiple of `i` from `i*i` up |
| Sieve.SkipUnmarked | millionaire_scan.py:24 | skipping an unmarked `i` loses nothing: its multiples from `i*i` up were cleared by a smaller divisor |
| Sieve.ClearedIsComposite | millionaire_scan.py:24 | every cleared index `k >= i*i` with `i >= 2` dividing it is composite |
| Sieve.PrimeSurvives | millionaire_scan.py:24 | a prime is never cleared, whatever the candidate reached |
| Sieve.SurvivorIsPrime | millionaire_scan.py:23-25 | an index below `i*i` still marked after candidates `2..i-1` is prime |
| Sieve.SurvivesIffPrime | millionaire_scan.py:20-25 | once `i*i > k`, `k` is marked iff `k` is prime |
| Sieve.OuterBoundSuffices | millionaire_scan.py:23 | every composite `k < n` has a factor `d` with `2 <= d <= floor(sqrt(n))` |
| Sieve.GetPrimes | millionaire_scan.py:20-25 | error iff `n < 0`; otherwise length `n`, entry `k` is 1.0 if `k` is prime and 0.0 if not; indices 0 and 1 are 0.0 |
| SquareField.Limit | jinx_square.py:19 | `int(np.sqrt(n-1))` is the largest `i` with `i*i <= n-1` |
| SquareField.WriteInBounds | jinx_square.py:19-21 | every `i <= limit` gives `0 <= i*i < n`, so `field[i*i]` is in bounds |
| SquareField.MarkStep | jinx_square.py:20-21 | writing at `i*i` marks exactly the positive square whose root is `i` |
| SquareField.FloorSqrtStep | jinx_square.py:19-21 | from `m-1` to `m` the root bound grows by one exactly when `m` is a positive square |
| SquareField.CountOfSquareField | jinx_square.py:19-21 | a square field of length `m >= 1` holds `floor(sqrt(m-1))` ones |
| SquareField.GetSquares | jinx_square.py:16-22 | error iff `n < 1`; otherwise length `n`, entry `j` is 1.0 iff `j = i*i` with `i >= 1`, else 0.0; index 0 is 0.0; every `i*i < n` is marked; the number of ones is `limit` |
| SquareField.FieldOfSeventeen | jinx_square.py:16-22 | for `n = 17` exactly 1, 4, 9 and 16 are marked and `limit = 4` |
| Coherence.GammasShape | diagdevice.py:16-22 | five reference frequencies, all positive, strictly increasing |
| Coherence.RoundHalfUp | diagdevice.py:44 | the result is within one half of `x`, a tie going away from zero |
| Coherence.PhaseOffset | diagdevice.py:45 | the offset lies in `[0, 1/2]` |
| Coherence.NearestRoot | diagdevice.py:41-44 | an integer `k` satisfying the nearest-root inequalities exists for every `n >= 0` |
| Coherence.NearestRootUnique | diagdevice.py:41-44 | the `k` satisfying those inequalities is unique, so no half-way tie occurs |
| Coherence.LargerRootTooFar | diagdevice.py:41-44 | above a nearest root `a`, every `b` has `b*b - b >= n` |
| Coherence.RoundedRootIsNearest | diagdevice.py:40-44 | rounding any root whose square is within 1/4 of `n` half-up yields the integer nearest root |
| Coherence.NearestRootBelowSquare | diagdevice.py:44 | `n = k*k - 1` with `k >= 2` rounds to `k` |
| Coherence.SampleTwoNearestRoot | diagdevice.py:118-120 | sample 2, `(10^35+7)(10^35+9)`, rounds to `10^35 + 8` |
| Coherence.PerfectSquareHasZeroOffset | diagdevice.py:41-45 | the root of `m*m` rounds to `m` with offset 0 |
| Coherence.SumBounded | diagdevice.py:55 | a sum of `L` terms in `[-1, 1]` lies in `[-L, L]` |
| Coherence.SumOfConstant | diagdevice.py:55 | a sum of `L` copies of `c` is `L * c` |
| Coherence.MeanBounded | diagdevice.py:55 | a mean of terms in `[-1, 1]` lies in `[-1, 1]` |
| Coherence.ScoreBounded | diagdevice.py:48-55 | every score lies in `[-1, 1]` (not the documented `[0, 1]`) |
| Coherence.PerfectSquareScoresOne | diagdevice.py:28-29 | a perfect square, 0 and 1 included, scores exactly 1.0 |
| Coherence.Gammas | diagdevice.py:16-22 | the five reference frequencies, in the order of the table |
| Coherence.Resonances | diagdevice.py:48-52 | one term `cos(gamma * offset)` per frequency, in order |
| Coherence.Sum | diagdevice.py:55 | `sum(resonances)`, a left-to-right sum |
| Coherence.Mean | diagdevice.py:55 | `sum(resonances) / len(resonances)` |
| Coherence.CoherenceScore | diagdevice.py:24-59 | 0.0 when `n < 0`; otherwise the mean of the resonance terms at the phase offset of `root` |
| Coherence.DocumentedRangeNotImplied | diagdevice.py:37 | the documented range `[0, 1]` does not follow: `n = 2`, root 1.4 and a cosine that is -1 away from 0 score -1 |
| Coherence.ComputeSpectralCoherence | diagdevice.py:24-59 | 0.0 for `n < 0`; otherwise, for a root whose square is within 1/4 of `n`, the mean of `cos(gamma * abs(root - k))` over the frequencies, with `k` the integer nearest root; in `[-1, 1]`; 1.0 for a perfect square whose root is exact |

## Left out

- Normalisation of the indicator vectors: floating-point norms and division.
- The quantum Fourier transform and the power spectrum: a foreign circuit library and complex floating-point arithmetic. No claim that the spectrum sums to 1 is made.
- Plotting, desktop paths, saving images, console output and `input()` pauses: presentation and I/O.
- riemann.py: a floating-point plot over hard-coded constants.
- The float loop bounds `int(n**0.5)` and `int(np.sqrt(n-1))`: replaced by the exact `FloorSqrt`. Float rounding could differ only far beyond the sizes used (`2**20`).
- The result vectors are `seq<real>` holding exactly 0.0 and 1.0. They are not IEEE doubles, and the `astype(np.float64)` copy is a plain sequence built from the marks.
- Coherence.ComputeSpectralCoherence: the 100-digit decimal square root is the parameter `root`. It is only required to be non-negative with its square within 1/4 of `n`. A 100-digit root meets that for every `n` below about `10^98`, both samples included. There the rounding agrees with `NearestRoot`. Larger inputs are not covered, and the code's results there are not modelled. At 101 digits the rounding can already differ: for `n = 10^100 + 10^50` the 100-digit root is exactly `10^50 + 0.5`, which rounds up to `10^50 + 1`, while the nearest root is `10^50`. From `n >= 10^198` the decimal root has no fractional digits left, so the offset is 0 and every input scores 1.0, square or not.
- Coherence.ComputeSpectralCoherence: a score of 1.0 for a perfect square is promised only when `root` is its exact root. The decimal root is exact while the root has at most 100 digits. For example, `m = 10^100 + 1` has `sqrt(m*m)` rounded to `10^100`.
- Coherence.ComputeSpectralCoherence: `math.cos` is the parameter `cos`. Only `cos(0) = 1` and the range `[-1, 1]` are assumed. The conversion `float(gamma * phase_offset)` is taken as exact. No numeric score value is reproduced.
- The claim that closer factors give a higher score: a heuristic that rests on concrete cosine values.
- The count of 25 primes below 100: not proved. Deciding each of the first hundred integers is beyond what the verifier evaluates cheaply. The general characterisation in `GetPrimes` covers it.
- `Exception` handling in diagdevice.py, beyond the negative-`n` case: no other operation in the modelled path can raise.
