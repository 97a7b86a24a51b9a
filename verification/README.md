# CorMap correlation map — a Dafny model

`cormap.py` compares 1-D curves (for instance SAXS intensity curves) pairwise.
For two curves `a` and `b` it takes the residual `b - a`, finds the longest
block of consecutive residuals of the same strict sign, and asks how likely a
block at least that long is among n fair coin tosses. That probability comes
from Schilling's run-count recurrence `A(n, c)`. The p-values of all pairs are
Bonferroni-corrected by the number of pairs, clamped at 1 and stored in a
symmetric N x N map.

The model has six modules:

- `Extrema` (`extrema.dfy`) holds `Max`, the one helper the word and scanner modules share.
- `BinaryWords` (`words.dfy`) enumerates all 2^n binary words of length n (coin-toss outcomes)
  and counts the words that satisfy a predicate. This enumeration gives the
  recurrence and the probability their meaning.
- `RunCount` (`run_count.dfy`) holds the recurrence `A`, its combinatorial meaning, and the
  memoised evaluation that `@cache` performs.
- `Survival` (`survival.dfy`) holds `proba_longest_run` and the proof that it is the
  frequency of toss sequences with a run longer than c.
- `RunScanner` (`run_scanner.dfy`) holds the one-pass `longest_run` scanner. It is proved
  against a reference definition and against the block characterisation
  "some run has this length and none is longer".
- `CorMap` (`cormap.dfy`) holds `pval`, the Bonferroni adjustment and `make_cormap`.

Floating-point values are exact `real`s and integers are unbounded.
`proba_longest_run(0, c)` is modelled as the source evaluates it. There
`A(-1, c-1)` is `2**-1` when `c >= 0` and the empty sum `0` otherwise.
The result is 0.0 or 1.0, which is the right probability for an empty toss
sequence. So `pval` of two empty curves needs no special case.

## Model

| member | source | states |
|---|---|---|
| RunCount.A | cormap.py:5-13 | the recurrence: A(n, c) is 0 for a negative bound c, where the summation range is empty, and at least 1 for c >= 0 (the all-tails word always qualifies) |
| RunCount.ACountsWords | cormap.py:5-13 | A(n, c) is the number of binary words of length n whose longest block of ones is at most c (0 for c < 0) |
| RunCount.AIsContinuations | cormap.py:6-13 | for c >= 0 the recurrence equals the count of an automaton that tracks the open block of ones |
| RunCount.ContinuationsCountWords | cormap.py:6-13 | the automaton count is the number of words the automaton accepts |
| RunCount.ABounds | cormap.py:6-13 | A(n, c) never exceeds 2^n and equals 2^n when n <= c |
| RunCount.AMonotone | cormap.py:6-13 | raising the bound c never lowers A(n, c) |
| RunCount.ANegativeBound | cormap.py:9-13 | for c < 0 the summation range is empty and A(n, c) is 0 |
| RunCount.ATestValues | cormap.py:79-81 | A(6,3) = 56, A(7,3) = 108, A(8,3) = 208 |
| RunCount.MemoA | cormap.py:5-13 | the memoised evaluation (sum over j = c down to 0 through the cache) returns A(n, c), stores it under (n, c), keeps every stored entry equal to A at its key and changes no earlier entry |
| Survival.ProbaLongestRun | cormap.py:16-20 | the result is a probability, between 0 and 1 |
| Survival.LongestRunCount | cormap.py:16-20 | exactly 2 A(n-1, c-1) of the 2^n toss sequences of length n >= 1 have no run of equal outcomes longer than c |
| Survival.ProbaIsRunFrequency | cormap.py:16-20 | proba_longest_run(n, c) is the fraction of the 2^n toss sequences of length n with a run of equal outcomes longer than c, for every n >= 0 |
| Survival.ProbaAtLeast | cormap.py:55-58 | with the bound one below an observed length L, the result is the fraction of toss sequences with a run of at least L |
| Survival.ProbaCertainBelowOne | cormap.py:16-20 | for n >= 1 and c <= 0 the probability is 1 |
| Survival.ProbaNonIncreasing | cormap.py:16-20 | the probability never increases as the bound c grows |
| Survival.ProbaTestValues | cormap.py:82-83 | proba_longest_run(9, 3) = 0.41796875 and proba_longest_run(9, 4) = 0.1875 |
| RunScanner.Sign | cormap.py:32-37 | the sign d of an element is 1, -1 or 0, positive exactly for a positive element and negative exactly for a negative one |
| RunScanner.LongestRunScan | cormap.py:22-47 | the sign/last/length scan returns the reference longest run, and that value is the length of some run of same-signed non-zero elements with no longer run anywhere |
| RunScanner.LongestRunIsLongest | cormap.py:22-26 | the reference definition satisfies the block characterisation of the longest run |
| RunScanner.LongestRunLengthUnique | cormap.py:22-26 | at most one length satisfies the block characterisation |
| RunScanner.LongestRunBounds | cormap.py:22-47 | the longest run is at most the length of x, and it is 0 exactly when every element is zero |
| RunScanner.LongestRunNegate | cormap.py:22-47 | negating every element leaves the longest run unchanged |
| RunScanner.TestVectorMixed | cormap.py:74 | longest run of [1, 2, 3, -5, -5, 4, 3, -5, -1, -2, -4] is 4 |
| RunScanner.TestVectorNegatives | cormap.py:75 | longest run of [-1, -1, -1, 0, 0, 0] is 3 |
| RunScanner.TestVectorPositives | cormap.py:76 | longest run of [1, 1, 1, 0, 0, 0] is 3 |
| RunScanner.TestVectorSingle | cormap.py:77 | longest run of [0, 0, -1, 0, 0, 0] is 1 |
| CorMap.Diff | cormap.py:53-54 | the residual b - a has the curves' length n, and element k is b[k] - a[k] |
| CorMap.PVal | cormap.py:49-58 | pval(a, b) is a probability, between 0 and 1 |
| CorMap.PValIsTailProbability | cormap.py:49-58 | pval(a, b) is the fraction of toss sequences of the curves' length with a run at least as long as the longest run of b - a |
| CorMap.PValSymmetric | cormap.py:49-58 | pval(a, b) = pval(b, a) |
| CorMap.PValSelf | cormap.py:49-58 | a curve compared with itself has p-value 1 |
| CorMap.Correction | cormap.py:64 | sum(range(n)) is n (n - 1) / 2, the number of unordered pairs |
| CorMap.AdjustedPVal | cormap.py:68-69 | the corrected and clamped p-value lies between 0 and 1 |
| CorMap.Adjust | cormap.py:68-69 | min(1.0, p * correction) is the product when that is below 1, and 1 otherwise |
| CorMap.AdjustMonotone | cormap.py:68-69 | correcting and clamping keeps the order: a smaller p-value never becomes a larger adjusted one |
| CorMap.AdjustedPValSymmetric | cormap.py:68-71 | the adjusted p-value does not depend on the order of the pair |
| CorMap.AdjustedPValSelf | cormap.py:64-69 | the diagonal value is 1 for two or more curves and 0 for a single curve, whose correction is 0 |
| CorMap.FillMirrored | cormap.py:65-71 | the two loops write f(i, j) at (i, j) and at (j, i) for every i <= j, so every entry of the upper triangle, diagonal included, and its mirror hold f of the upper-triangle pair |
| CorMap.MakeCorMap | cormap.py:60-72 | the map is N x N, entry (i, j) is the adjusted p-value of curves i and j for every i and j, the map is symmetric, every entry is between 0 and 1, and the diagonal is 1 (or 0 for a single curve) |

## Left out

- File I/O, plotting and the command-line driver (`integrate.py`) are not part of this model.
- The `numba` just-in-time compilation of `longest_run` affects speed only and is not modelled.
- `@cache` is modelled as an explicit map passed into and out of `RunCount.MemoA`. The source's cache is process-wide and unbounded, and its thread safety is not modelled.
- `RunCount.A` and `RunCount.MemoA` return a value for every n. The source's `A` recurses about n levels deep on a cold cache: `A(n-1, 0)` calls `A(n-2, 0)` and so on. `pval` reaches this with c = 0 whenever the residual's longest run is 2 (cormap.py:20, 57). For curves of roughly 1000 points or more, Python's default recursion limit then raises RecursionError. Stack depth is not modelled.
- IEEE-754 doubles are modelled as exact `real`s. Rounding, NaN and infinities are not modelled. The test vectors of `proba_longest_run` are dyadic, so they hold exactly.
- The source's integer test arrays for `longest_run` are modelled as sequences of reals with the same values.
- `A` and `proba_longest_run` with a negative n are not modelled. The model admits every n >= 0, and `pval` never passes a negative n.
- `CorMap.PVal`, `CorMap.MakeCorMap`: curves of different lengths are excluded by a precondition. In the source, numpy would raise or broadcast in `b - a`, and that behaviour is not modelled.
- The diagonal of the map is computed, because the inner loop starts at `j = i` (cormap.py:66). It is not left at zero, and the model follows the code.
- `CorMap.MakeCorMap` allocates the `array2<real>` it returns, but its contract does not state freshness. numpy's dtype and memory layout are not modelled.
