# HyperLogLog sketches: registers, multiplicities, union, joint tabulation and Wang's hashes

This project models the register-level core of a small Python HyperLogLog
library that follows Ertl, "New cardinality estimation algorithms for
HyperLogLog sketches" (2017). It covers five pieces.

- **The sketch** (`HLL.py`). A sketch has a precision `p`, `q = 64 - p`
  remaining hash bits, `m = 2^p` registers, and a `registers` list holding
  ranks in `[0, q+1]`. The estimators read the registers through
  `getRegisters()`, and `union` builds its result with `HLL(p, registers)`.
  `HLL.py` defines neither, so module `Sketch` adds the `registers` field and
  the two-argument constructor `WithRegisters`. `insert` returns at once and
  changes nothing.
- **Union** (`Similarity.py`, Ertl's Algorithm 2). The result's registers are
  the register-wise maximum, computed in a loop over a fresh list.
- **The joint tabulation** (`Similarity.py`, first half of Algorithm 9). Five
  numpy vectors of length `q+2` are incremented in place, one register pair at
  a time. Then come the estimator starts of both marginal histograms and the
  "no intersection" short-circuit.
- **The multiplicity vector and the start of the estimators**
  (`Cardinality.py`).
  - `getMultiplicity` is modelled as written (Algorithm 4).
  - The integer and rational prefix of `estimateCardinality` (Algorithm 8):
    the saturation test, the `k_min`/`k_max` search, the Horner loop for `z`,
    then `c`, `a`, `b`, `m'` and the weak seed.
  - The branch selection of `simpleCardinality` (Algorithm 5).
- **Thomas Wang's shift hashes** (`Hash.py`).
  - `rshift64` and `rshift32`.
  - `hash64shift` and `hash32shift` on unbounded Python integers, where `~`,
    `<<` and `^` act in two's complement with infinite sign extension.
  - Each hash is proved equal, for every Python integer, to Wang's
    fixed-width wrapping hash of the key reduced modulo the word size.

**Modules.**

- `Arith`: powers of two, `Scale(k) = 2^-k`, sums, and modular helpers.
- `Sketch`: the `HLL` class.
- `Cardinality`: histograms, `getMultiplicity`, the MLE prefix and
  `simpleCardinality`.
- `Similarity`: union, the tabulation and the joint estimator start.
- `Hash`: the hashes.

**The numpy vectors** `C1_less`, `C2_less`, `C_equal`, `C1_greater` and
`C2_greater` are `array<nat>` in the method that fills them (`Tabulate`). That
method is proved against the function `JointOf`: each vector is the histogram
of the values the loop tallies in it.

**Where the documentation and the code differ, the model follows the code.**

- Algorithm 1 of Ertl (2017), which HLL.py:3-4 cites, inserts an element by
  hashing it and raising one register to the element's rank; the code's
  `insert` (HLL.py:15-17) returns at once and changes nothing.
- `estimateCardinality` reads the last entry of the list it receives as the
  saturated bucket `q+1` (Cardinality.py:43-44), and Algorithm 4 counts every
  register. `getMultiplicity` builds only `q+1` entries, ranks `0..q`
  (Cardinality.py:26-27), and its counting loop starts at register 1
  (Cardinality.py:30-31); see Findings.
- The model keeps `getMultiplicity` as written. The corrected vector,
  `Cardinality.Multiplicity`, is what the joint tabulation's marginals equal.

**Hash words.** Wang's reference hashes are modelled on integer words in
`[0, 2^b)`, with wrapping `+`, `~` and `<<` written as reductions modulo
`2^b`, and `>>>` as division by `2^n`. They are not modelled as `bv64`/`bv32`
values: conversions between bit-vectors and integers of that width are beyond
what the solver can do within the resource limit.

Both hashes are lists of `Line`s, one per rebinding of `key`. The lists are
run by two interpreters:

- `RunPy` uses Python semantics;
- `RunWord` uses the fixed-width word semantics.

`WangShift64` and `WangShift32` write Wang's hashes a second, independent way:
as straight-line wrapping arithmetic with the multiplications of his comments
(`key * 265`, `key * 21`, `key * 2057`) and a logical `>>>`. Each is proved
equal to the `RunWord` run of its list.

## Model

| member | source | states |
|---|---|---|
| `Sketch.HLL.constructor` | HLL.py:9-13 | the new sketch stores `p` unchanged; `p + q == 64`, `m == 2^p >= 1`; `m` registers, all 0 |
| `Sketch.HLL.WithRegisters` | Similarity.py:37 | `HLL(p, registers)` keeps the given registers and has the shape of `HLL(p)` |
| `Sketch.HLL.Insert` | HLL.py:15-17 | `p`, `q`, `m` and the registers are the same after the call as before it |
| `Similarity.MaxRegisters` | Similarity.py:32-34 | the loop yields a list of `len(r1)` entries, entry `i` being `max(r1[i], r2[i])`, which is `Merge` of `r1` and the matching prefix of `r2` |
| `Similarity.Union` | Similarity.py:24-38 | a fresh valid sketch with `hll1`'s `p`, `q`, `m`, whose registers are the register-wise maximum; neither input's registers change |
| `Similarity.Merge` | Similarity.py:33-34 | each union register is at least both inputs' registers and equals one of them |
| `Similarity.MergeIsLeastUpperBound` | Similarity.py:33-34 | each union register is at least both inputs' registers, and is at most any list that bounds both |
| `Similarity.MergeCommutative` | Similarity.py:33-34 | union of registers is commutative |
| `Similarity.MergeAssociative` | Similarity.py:33-34 | union of registers is associative |
| `Similarity.MergeIdempotent` | Similarity.py:33-34 | the union of a register list with itself is that list |
| `Similarity.Increment` | Similarity.py:89 | `C[v] += 1` turns the histogram of `t` into the histogram of `t + [v]` |
| `Similarity.TallyPair` | Similarity.py:88-95 | one loop iteration adds register pair `i` to exactly the vectors its comparison selects, at `r1[i]` or `r2[i]` |
| `Similarity.Zeros` | Similarity.py:81-85 | `np.zeros(q+2)` is a fresh vector of `q+2` zeros, the histogram of no values |
| `Similarity.Tabulate` | Similarity.py:80-95 | the five vectors after the loop are exactly `JointOf(r1, r2, q)`: each is the histogram of the values its comparison tallied |
| `Similarity.TalliedJoint` | Similarity.py:87-95 | once every pair is tallied, the five arrays read as sequences are `JointOf` |
| `Similarity.PickLengths` | Similarity.py:88-93 | `C1_less` and `C2_greater` tally the same pairs, and so do `C1_greater` and `C2_less` |
| `Similarity.JointTotals` | Similarity.py:87-95 | `sum(C1_less) + sum(C_equal) + sum(C1_greater) == len(r1)`, `sum(C1_less) == sum(C2_greater)`, `sum(C1_greater) == sum(C2_less)` |
| `Similarity.Add3` | Similarity.py:98-99 | numpy's element-wise `+` of three vectors keeps their common length |
| `Similarity.SumAdd3` | Similarity.py:98-99 | the total of that element-wise sum is the sum of the three totals |
| `Similarity.FirstMarginal` | Similarity.py:98 | `C1_less + C_equal + C1_greater` is the full multiplicity vector of `r1` |
| `Similarity.SecondMarginal` | Similarity.py:99 | `C2_greater + C_equal + C2_less` is the full multiplicity vector of `r2` |
| `Similarity.UnionMarginal` | Similarity.py:105 | `C1_greater + C_equal + C2_greater` is the multiplicity vector of the union registers `max(r1, r2)` |
| `Similarity.NoIntersectionTest` | Similarity.py:101-103 | `C1_less[0] + C_equal[0] + C2_less[0] == m` holds exactly when `min(r1[i], r2[i]) == 0` at every index |
| `Similarity.SaturatedMultiplicity` | Cardinality.py:46-49 | the saturated bucket of a multiplicity vector equals its total exactly when every register is `q+1` |
| `Similarity.MarginalStart` | Similarity.py:98-99 | `estimateCardinality` started on a marginal vector is `StartOf` the multiplicity vector of that sketch's registers, and is infinite exactly when every register of that sketch is saturated |
| `Similarity.MarginalInfinite` | Similarity.py:98-99 | the start of `estimateCardinality` on a sketch's full multiplicity vector is infinite exactly when every register is `q+1` |
| `Similarity.JointStart` | Similarity.py:77-103 | on equal-length register lists: the five vectors are `JointOf`; `lambda_ax` and `lambda_bx` are `StartOf` the multiplicity vectors of `r1` and `r2`, each infinite iff that side is all saturated; the short-circuit fires iff every register pair has a 0 |
| `Similarity.PrefixRanks` | Similarity.py:88-95 | when `hll1` has no more registers than `hll2`, the registers of `hll2` read at `hll1`'s indices are ranks within `hll1`'s `q+1` |
| `Similarity.GetJointEstimators` | Similarity.py:70-103 | for two sketches, reading `hll2`'s registers at the indices of `hll1`'s: the vectors are `JointOf`, `lambda_ax`/`lambda_bx` are `StartOf` the two multiplicity vectors (their infinity is `MarginalInfinite`), and the short-circuit fires iff `min(r1[i], r2[i]) == 0` at every index |
| `Similarity.Intersection` | Similarity.py:56-58 | `intersection` returns 0 exactly when the short-circuit applies; otherwise the optimizer's value (outside the model) |
| `Similarity.UnionRawEstimate` | Similarity.py:33-34 | the raw harmonic estimate of the union is at least that of either sketch |
| `Cardinality.Multiplicity` | Cardinality.py:19-32 | the corrected vector: `q+2` entries, entry `k` counts the registers equal to `k`, and the entries sum to `m` |
| `Cardinality.GetMultiplicity` | Cardinality.py:19-32 | as written: `None` (IndexError) iff some register at index `1..m-1` exceeds `q`; otherwise `q+1` entries counting the registers at indices `1..m-1` |
| `Cardinality.GetMultiplicityTotal` | Cardinality.py:30-31 | the list `getMultiplicity` returns sums to `m - 1` |
| `Cardinality.GetMultiplicityDropsRegisterZero` | Cardinality.py:30-31 | for registers `[1, 0]` with `q = 63` the list sums to 1, while the corrected vector sums to `m = 2` |
| `Cardinality.GetMultiplicityRejectsSaturated` | Cardinality.py:26-31 | for registers `[0, 64]` with `q = 63` the saturated rank 64 makes `getMultiplicity` fail, while the corrected vector counts it in bucket `q+1` |
| `Cardinality.FirstNonzero` | Cardinality.py:52 | the index of the first non-zero count: every earlier entry is 0; the length when there is none |
| `Cardinality.LastNonzero` | Cardinality.py:54-55 | the index of the last non-zero count: every later entry is 0; -1 when there is none |
| `Cardinality.HornerRule` | Cardinality.py:58-61 | the nested sum the descending loop builds, scaled by `2^-k'min`, is the direct sum of `counts[k] * 2^-k` over `[k'min, k'max]` |
| `Cardinality.Horner` | Cardinality.py:58-61 | the loop `z = 0.5*z + counts[k]` from `k'max` down to `k'min`, then `z * 2^-k'min`, gives that direct weighted sum, and `z >= 0` |
| `Cardinality.UnsaturatedRange` | Cardinality.py:48-56 | when not saturated there are at least two counts, the first non-zero entry is at most `q`, and it is no later than the last non-zero entry |
| `Cardinality.StartPositive` | Cardinality.py:67 | `a = z + counts[0]` is positive on a histogram that is not saturated |
| `Cardinality.Seed` | Cardinality.py:70-73 | the weak bound is chosen iff `b <= 1.5a`, and it is the non-negative root of `x (0.5b + a) = m'` |
| `Cardinality.StartOf` | Cardinality.py:42-71 | the state `estimateCardinality` reaches before its iteration: infinity iff the last entry equals the total; otherwise `1 <= k'min`, `k'max <= q`, `z >= 0`, `a > 0`, `b >= z`, `m' <= m`, and the weak seed iff `b <= 1.5a` |
| `Cardinality.EstimateStart` | Cardinality.py:42-71 | the loop computes exactly `StartOf(counts)`: infinity iff the last entry equals the total (including the all-zero histogram); otherwise `1 <= k'min`, `k'max <= q`, `z` is the weighted sum, `c`, `a > 0`, `b`, `m'` and the seed as the source computes them |
| `Cardinality.SaturatedIsInfinite` | Cardinality.py:46-49 | a histogram whose only non-zero entry is the saturated one, or which is all zero, sums to its last entry |
| `Cardinality.HarmonicSum` | Cardinality.py:119 | the sum of `2^-register` is non-negative, and positive for a non-empty list |
| `Cardinality.HarmonicSumBounds` | Cardinality.py:119 | that sum is at most `m`, and is `m` when every register is 0 |
| `Cardinality.HarmonicSumAntitone` | Cardinality.py:119 | raising registers never raises that sum |
| `Cardinality.Alpha` | Cardinality.py:116 | the bias factor `0.7213/(1 + 1.079/m)` lies in `(0, 1)` |
| `Cardinality.RawEstimate` | Cardinality.py:119 | `n_raw = alpha_m m^2 / sum 2^-register` is positive |
| `Cardinality.RawEstimateMonotone` | Cardinality.py:119 | raising registers never lowers `n_raw` |
| `Cardinality.ZeroCount` | Cardinality.py:123 | `registers.count(0)` is at most `m`, is `m` iff every register is 0, and is 0 iff none is |
| `Cardinality.SimpleCardinality` | Cardinality.py:114-132 | an empty list divides by zero; the small-range correction is taken only with `0 < c0 <= m` zero registers |
| `Cardinality.SimpleReturnsRaw` | Cardinality.py:122-129 | `n_raw` is returned unchanged iff `2.5m < n_raw <= 2^64/30`, or `n_raw <= 2.5m` with no zero register |
| `Cardinality.EmptySketchEstimate` | Cardinality.py:114-125 | an empty sketch has `n_raw = alpha_m m` and takes the small-range correction with all `m` registers zero |
| `Hash.RShift64` | Hash.py:18 | `rshift64(val, n)` is non-negative and at most `val % 2^64` |
| `Hash.RShift32` | Hash.py:9 | `rshift32(val, n)` is non-negative and at most `val % 2^32` |
| `Hash.Invert` | Hash.py:29 | Python's `~key` added to `key` is -1, and `~key` is negative exactly when `key` is not |
| `Hash.Shl` | Hash.py:29-35 | Python's `key << n` has `n` low zero bits and shifts back to `key`: it never overflows |
| `Hash.Xor` | Hash.py:30-50 | Python's `a ^ b` is negative exactly when one of `a`, `b` is |
| `Hash.RShift64Range` | Hash.py:18 | `rshift64(val, n)` lies in `[0, 2^(64-n))` for `n <= 64`, whatever the sign of `val` |
| `Hash.RShift32Range` | Hash.py:9 | `rshift32(val, n)` lies in `[0, 2^(32-n))` for `n <= 32` |
| `Hash.RShift64Periodic` | Hash.py:18 | `rshift64` depends only on `val` modulo `2^64` |
| `Hash.RShift32Periodic` | Hash.py:9 | `rshift32` depends only on `val` modulo `2^32` |
| `Hash.RShiftWidths` | Hash.py:9-18 | the width-generic shift at 64 and 32 bits is `rshift64` and `rshift32` |
| `Hash.XorShrCallsRShift` | Hash.py:30-50 | the xorshift lines of both hashes compute `key ^ rshift64(key, n)` and `key ^ rshift32(key, n)` |
| `Hash.XorMod` | Hash.py:30-34 | the low `n` bits of Python's `a ^ b` depend only on the low `n` bits of `a` and `b` |
| `Hash.CommentedIdentities` | Hash.py:29-33 | `(~key)+(key<<21) == (key<<21)-key-1`, `key*265`, `key*21`, and the 32-bit `(~key)+(key<<15) == (key<<15)-key-1` (line 45), `key*5`, `key*2057` |
| `Hash.NotPlusShlCongruent` | Hash.py:29 | `(~key)+(key<<s)` modulo `2^b` is its wrapping word counterpart on `key mod 2^b` |
| `Hash.PlusShlsCongruent` | Hash.py:31 | `(key+(key<<s))+(key<<t)` modulo `2^b` is its wrapping word counterpart |
| `Hash.PlusShlCongruent` | Hash.py:35 | `key+(key<<s)` modulo `2^b` is its wrapping word counterpart |
| `Hash.StepCongruent` | Hash.py:29-35 | every line, on any Python integer and reduced modulo `2^b`, equals the word-level line on `key mod 2^b` |
| `Hash.RunXorShrs` | Hash.py:50 | on a word, xorshift lines compute the same in Python as in wrapping words |
| `Hash.RunExact` | Hash.py:28-51 | a run whose last `% 2^b` is followed only by xorshifts gives exactly the word-level run on `key mod 2^b` |
| `Hash.Wang64` | Hash.py:20-36 | Wang's 64-bit hash maps a 64-bit word to a 64-bit word |
| `Hash.Wang32` | Hash.py:39-51 | Wang's 32-bit hash maps a 32-bit word to a 32-bit word |
| `Hash.HashPy64` | Hash.py:28-36 | `hash64shift` always returns a value in `[0, 2^64)` |
| `Hash.HashPy32` | Hash.py:44-51 | `hash32shift` always returns a value in `[0, 2^32)` |
| `Hash.HashPy64IsWang64` | Hash.py:28-36 | for every Python integer key, negative or oversized, `hash64shift(key)` is Wang's wrapping 64-bit hash of `key mod 2^64` |
| `Hash.HashPy32IsWang32` | Hash.py:39-51 | for every Python integer key, `hash32shift(key)` is Wang's wrapping 32-bit hash of `key mod 2^32` |
| `Hash.Run64Steps` | Hash.py:29-35 | the 64-bit lines run one after the other, in source order |
| `Hash.Run32Steps` | Hash.py:45-50 | the 32-bit lines run one after the other, in source order |
| `Hash.Wang64Front` | Hash.py:29-30 | on a word, lines 29-30 compute `(key*2^21 - key - 1) mod 2^64`, then `key ^ (key >>> 24)` |
| `Hash.Wang64Middle` | Hash.py:31-32 | on a word, lines 31-32 compute `key*265 mod 2^64`, then `key ^ (key >>> 14)` |
| `Hash.Wang64Back` | Hash.py:33-35 | on a word, lines 33-35 compute `key*21 mod 2^64`, `key ^ (key >>> 28)`, then `key*(2^31+1) mod 2^64` |
| `Hash.Wang64IsWangShift64` | Hash.py:28-36 | the line-by-line word hash equals Wang's straight-line 64-bit hash with `key*265`, `key*21` and `>>>` |
| `Hash.Wang32Front` | Hash.py:45-46 | on a word, lines 45-46 compute `(key*2^15 - key - 1) mod 2^32`, then `key ^ (key >>> 12)` |
| `Hash.Wang32Middle` | Hash.py:47-48 | on a word, lines 47-48 compute `key*5 mod 2^32`, then `key ^ (key >>> 4)` |
| `Hash.Wang32Back` | Hash.py:49-50 | on a word, lines 49-50 compute `key*2057 mod 2^32`, then `key ^ (key >>> 16)` |
| `Hash.Wang32IsWangShift32` | Hash.py:44-51 | the line-by-line word hash equals Wang's straight-line 32-bit hash with `key*5`, `key*2057` and `>>>` |

## Left out

- `HLL.cardinality` (HLL.py:19-22) is not modelled: it calls `getMultiplicity()` with no argument, while `getMultiplicity(hll)` (Cardinality.py:19) takes one, so every call raises TypeError before any estimate is made.
- `intersection_inclusion_exclusion` (Similarity.py:46-47) is not modelled: its first operand `hll1.cardinality()` raises that same TypeError.
- The Newton iteration of `estimateCardinality` (Cardinality.py:75-104) and its strong seed `(m'/b) ln(1 + b/a)` (Cardinality.py:73) are left out. They need floating-point logarithms and square roots, and convergence tolerances.
- Cardinality.EstimateStart stops before that iteration. Its result is the state the iteration starts from, with the strong seed recorded only as `Strong`.
- Cardinality.SimpleCardinality returns the two logarithmic corrections (Cardinality.py:125,132) as their arguments (`SmallRange(m, c0)` and `LargeRange(n_raw)`), not as numbers.
- Similarity.GetJointEstimators covers lines 70-103 only. The log-domain seeding, the L-BFGS-B `minimize` call and the log-likelihood `calculate_xyz`/`calculate_log_likelihood` (Similarity.py:105-204) are floating-point numerics and a foreign optimizer.
- Similarity.Intersection returns `None` where the value would come from that optimizer.
- `Similarity.main` (Similarity.py:211-250) is a demo driver with random data and printing, so it is not modelled.
- Floating point is not modelled. Estimator arithmetic is exact `real` arithmetic, and the constants `0.7213`, `1.079`, `0.5` and `1.5` are exact decimals.
- Bit-vectors are not used. Wang's hashes are stated on integer words with explicit reductions modulo `2^64`/`2^32`. Relating `bv64` to integers is beyond the solver's resource limit.
- Similarity.Union and Similarity.GetJointEstimators require `hll1.m <= hll2.m`. The source reads `r2[i]` for every index of `r1`, and raises IndexError otherwise; that error path is not modelled.
- Cardinality.EstimateStart requires a non-empty histogram. On an empty list, `counts[numCounts]` raises IndexError.
- `insert` is modelled as the no-op it is. No rank computation is invented for it.
- Sketch.HLL.constructor: takes `p: nat` with `p <= 64`, while HLL.py:9-13 accepts any Python int. A negative `p` gives a fractional `m = 2 ** p` and `p > 64` a negative `q`, neither of which a register count or a rank bound can be; every caller in the repository passes 12 (GNome.py:26, Similarity.py:212-213).
- The other files of the repository are not part of this model:
  - `GNome.py`: file reading, pickling and interactive input;
  - `GenomeRankings.py`: scipy ranking;
  - the plotting scripts;
  - the random string generators.

## Findings

| source | as written | input that shows it | evidently intended | confidence | as-written member | corrected member |
|---|---|---|---|---|---|---|
| Cardinality.py:30-31 | the counting loop starts at index 1, so register 0 is never counted and the entries sum to `m - 1` | `p = 1`, `q = 63`, registers `[1, 0]`: the list sums to 1, not 2 | count every register (Algorithm 4), so the entries sum to `m` | high, not executed | `Cardinality.GetMultiplicityDropsRegisterZero` | `Cardinality.Multiplicity` |
| Cardinality.py:26-27 | the list has `q+1` entries (ranks `0..q`), so a saturated register of rank `q+1` indexes past its end, and `estimateCardinality` (Cardinality.py:43-44) reads the last entry as the saturated bucket | `p = 1`, `q = 63`, registers `[0, 64]`: IndexError | `q+2` entries, with bucket `q+1` for saturated registers | high, not executed | `Cardinality.GetMultiplicityRejectsSaturated` | `Cardinality.Multiplicity` |
