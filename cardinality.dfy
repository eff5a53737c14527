/** Cardinality.py: the multiplicity vector of a sketch (Ertl, Algorithm 4),
    the integer and rational prefix of the maximum-likelihood estimator
    (Algorithm 8), and the branch selection of the bias-corrected
    harmonic-mean estimator (Algorithm 5). */
module Cardinality {
  import opened Arith
  import opened Sketch

  /** Histogram of the values in s: entry k counts the occurrences of k,
      for k in [0, n). */
  function Hist(s: seq<nat>, n: nat): seq<nat>
  {
    seq(n, k => multiset(s)[k])
  }

  /** Appending one value below n adds one to its bucket and nothing else. */
  lemma HistSnoc(s: seq<nat>, v: nat, n: nat)
    requires v < n
    ensures Hist(s + [v], n) == Hist(s, n)[v := Hist(s, n)[v] + 1]
  {
    assert multiset(s + [v]) == multiset(s) + multiset{v};
  }

  /** When every value is below n, the histogram counts every element once. */
  lemma {:induction false} HistTotal(s: seq<nat>, n: nat)
    requires forall i :: 0 <= i < |s| ==> s[i] < n
    ensures Sum(Hist(s, n)) == |s|
  {
    if |s| == 0 {
      SumZero(Hist(s, n));
    } else {
      var t, v := s[..|s| - 1], s[|s| - 1];
      assert s == t + [v];
      HistTotal(t, n);
      HistSnoc(t, v, n);
      SumBump(Hist(t, n), v);
    }
  }

  /** The multiplicity vector Algorithm 4 calls for: length q+2, one bucket per
      rank 0..q+1 including the saturated rank, counting every register. */
  function Multiplicity(registers: seq<nat>, q: nat): (c: seq<nat>)
    requires forall i :: 0 <= i < |registers| ==> registers[i] <= q + 1
    ensures |c| == q + 2
    ensures Sum(c) == |registers|
    ensures forall k :: 0 <= k < q + 2 ==> c[k] == multiset(registers)[k]
  {
    HistTotal(registers, q + 2);
    Hist(registers, q + 2)
  }

  /** getMultiplicity(hll) as written: a list of q+1 zeros, then one increment
      per register at index 1..m-1. Register 0 is never counted, and a
      register at the saturated rank q+1 indexes past the end of the list
      (IndexError, modelled as None). */
  method GetMultiplicity(h: HLL) returns (c: Option<seq<nat>>)
    requires h.Valid()
    ensures c.Some? <==> forall i :: 1 <= i < h.m ==> h.registers[i] <= h.q
    ensures c.Some? ==> |c.value| == h.q + 1
    ensures c.Some? ==> c.value == Hist(h.registers[1..], h.q + 1)
  {
    var registers := h.registers;
    var m := |registers|;
    var onePosition := h.q;
    var counts: seq<nat> := [];
    var j := 0;
    while j < onePosition + 1
      invariant 0 <= j <= onePosition + 1
      invariant counts == seq(j, _ => 0)
    {
      counts := counts + [0];
      j := j + 1;
    }
    assert counts == Hist([], onePosition + 1);
    var i := 1;
    while i < m
      invariant 1 <= i <= m
      invariant |counts| == onePosition + 1
      invariant forall t :: 1 <= t < i ==> registers[t] <= onePosition
      invariant counts == Hist(registers[1..i], onePosition + 1)
    {
      var v := registers[i];
      if v >= |counts| {
        return None;
      }
      assert registers[1..i + 1] == registers[1..i] + [v];
      HistSnoc(registers[1..i], v, onePosition + 1);
      counts := counts[v := counts[v] + 1];
      i := i + 1;
    }
    assert registers[1..i] == registers[1..];
    return Some(counts);
  }

  /** The list getMultiplicity builds sums to m - 1: register 0 is lost. */
  lemma GetMultiplicityTotal(registers: seq<nat>, q: nat)
    requires |registers| >= 1
    requires forall i :: 1 <= i < |registers| ==> registers[i] <= q
    ensures Sum(Hist(registers[1..], q + 1)) == |registers| - 1
  {
    HistTotal(registers[1..], q + 1);
  }

  /** A two-register sketch (p = 1, q = 63) holding ranks [1, 0]: the list
      getMultiplicity returns totals 1, not m = 2, while Multiplicity totals 2. */
  lemma GetMultiplicityDropsRegisterZero()
    ensures Sum(Hist([1, 0][1..], 64)) == 1
    ensures Sum(Multiplicity([1, 0], 63)) == 2
  {
    GetMultiplicityTotal([1, 0], 63);
  }

  /** A two-register sketch holding ranks [0, 64], where 64 = q+1 is a valid
      saturated rank: getMultiplicity's index check fails on it. */
  lemma GetMultiplicityRejectsSaturated()
    ensures !(forall i :: 1 <= i < 2 ==> [0, 64][i] <= 63)
    ensures |Multiplicity([0, 64], 63)| == 65 && Multiplicity([0, 64], 63)[64] == 1
  {
    assert [0, 64][1] == 64;
  }

  /** Index of the first non-zero entry, |counts| when there is none
      (the generator in estimateCardinality then yields None). */
  function FirstNonzero(counts: seq<nat>): (k: nat)
    ensures k <= |counts|
    ensures forall j :: 0 <= j < k ==> counts[j] == 0
    ensures k < |counts| ==> counts[k] != 0
  {
    if |counts| == 0 then 0
    else if counts[0] != 0 then 0
    else 1 + FirstNonzero(counts[1..])
  }

  /** Index of the last non-zero entry, -1 when there is none. */
  function LastNonzero(counts: seq<nat>): (k: int)
    ensures -1 <= k < |counts|
    ensures forall j :: k < j < |counts| ==> counts[j] == 0
    ensures k >= 0 ==> counts[k] != 0
  {
    if |counts| == 0 then -1
    else if counts[|counts| - 1] != 0 then |counts| - 1
    else LastNonzero(counts[..|counts| - 1])
  }

  /** The reference for Horner's rule: the direct sum of counts[k] * 2^-k
      over k in [lo, hi]. */
  function Weighted(counts: seq<nat>, lo: nat, hi: int): real
    requires hi < |counts|
    decreases hi - lo + 1
  {
    if hi < lo then 0.0 else counts[lo] as real * Scale(lo) + Weighted(counts, lo + 1, hi)
  }

  lemma {:induction false} WeightedPositive(counts: seq<nat>, lo: nat, hi: int, j: nat)
    requires hi < |counts| && lo <= j <= hi && counts[j] != 0
    ensures Weighted(counts, lo, hi) > 0.0
    decreases hi - lo + 1
  {
    WeightedNonNegative(counts, lo + 1, hi);
    if lo < j {
      WeightedPositive(counts, lo + 1, hi, j);
    }
  }

  lemma {:induction false} WeightedNonNegative(counts: seq<nat>, lo: nat, hi: int)
    requires hi < |counts|
    ensures Weighted(counts, lo, hi) >= 0.0
    decreases hi - lo + 1
  {
    if lo <= hi {
      WeightedNonNegative(counts, lo + 1, hi);
    }
  }

  /** The starting point of the Newton iteration: the weak lower bound
      m' / (b/2 + a), or the strong lower bound (m'/b) ln(1 + b/a), whose
      logarithm is outside this model. */
  datatype Bound = Weak(x: real) | Strong

  /** The seed choice: the weak bound x, the root of x (b/2 + a) = m', when
      b <= 1.5 a, the strong bound otherwise. */
  function Seed(a: real, b: real, mPrime: nat): (x: Bound)
    requires a > 0.0 && b >= 0.0
    ensures x.Weak? <==> b <= 1.5 * a
    ensures x.Weak? ==> x.x >= 0.0 && x.x * (0.5 * b + a) == mPrime as real
  {
    if b <= 1.5 * a then Weak(mPrime as real / (0.5 * b + a)) else Strong
  }

  /** What estimateCardinality has computed before its floating-point
      iteration: either the saturated answer math.inf, or the clamped range
      [kMin, kMax] = [k'_min, k'_max], the Horner sum z, the auxiliary c, a,
      b, m' and the seed. */
  datatype MleStart =
    | Infinite
    | Ready(kMin: nat, kMax: nat, z: real, c: nat, a: real, b: real, mPrime: nat, seed: Bound)

  /** What the descending loop z <- z/2 + counts[k] holds once it has
      consumed the entries hi down to lo, before the final scaling. */
  function HornerSum(counts: seq<nat>, lo: nat, hi: int): real
    requires hi < |counts|
    decreases hi - lo + 1
  {
    if hi < lo then 0.0 else 0.5 * HornerSum(counts, lo + 1, hi) + counts[lo] as real
  }

  /** Horner's rule: the nested sum, scaled by 2^-lo, is the direct
      weighted sum. */
  lemma {:induction false} HornerRule(counts: seq<nat>, lo: nat, hi: int)
    requires hi < |counts|
    ensures HornerSum(counts, lo, hi) * Scale(lo) == Weighted(counts, lo, hi)
    decreases hi - lo + 1
  {
    if lo <= hi {
      HornerRule(counts, lo + 1, hi);
      var h, c, s := HornerSum(counts, lo + 1, hi), counts[lo] as real, Scale(lo);
      assert Scale(lo + 1) == s / 2.0;
      assert (0.5 * h + c) * s == h * (s / 2.0) + c * s;
    }
  }

  /** The descending loop z <- z/2 + counts[k] for k from hi down to lo,
      then z * 2^-lo. */
  method Horner(counts: seq<nat>, lo: nat, hi: int) returns (z: real)
    requires hi < |counts| && lo <= hi + 1
    ensures z == Weighted(counts, lo, hi)
    ensures z >= 0.0
  {
    z := 0.0;
    var k := hi;
    while k >= lo
      invariant lo - 1 <= k <= hi
      invariant z == HornerSum(counts, k + 1, hi)
    {
      z := 0.5 * z + counts[k] as real;
      k := k - 1;
    }
    z := z * Scale(lo);
    HornerRule(counts, lo, hi);
    WeightedNonNegative(counts, lo, hi);
  }

  /** The saturated registers' share of b: counts[q+1] * 2^-q. */
  function SaturatedMass(counts: seq<nat>): (w: real)
    requires |counts| >= 2
    ensures w >= 0.0
  {
    counts[|counts| - 1] as real * Scale(|counts| - 2)
  }

  /** A histogram that is not all saturated has a non-saturated entry, so
      the range search finds a first non-zero entry no later than q. */
  lemma UnsaturatedRange(counts: seq<nat>)
    requires |counts| >= 1 && counts[|counts| - 1] != Sum(counts)
    ensures |counts| >= 2
    ensures FirstNonzero(counts) <= |counts| - 2
    ensures FirstNonzero(counts) <= LastNonzero(counts)
    ensures counts[0] <= Sum(counts)
  {
    SumAtLeastEntry(counts, |counts| - 1);
    SumAtLeastEntry(counts, 0);
  }

  /** a = z + counts[0] is positive: either counts[0] is, or the first
      non-zero entry lies inside the clamped range and weighs in z. */
  lemma StartPositive(counts: seq<nat>, lo: nat, hi: int)
    requires |counts| >= 2 && counts[|counts| - 1] != Sum(counts)
    requires lo == Max(FirstNonzero(counts), 1) && hi == Min(LastNonzero(counts), |counts| - 2)
    ensures Weighted(counts, lo, hi) + counts[0] as real > 0.0
  {
    UnsaturatedRange(counts);
    WeightedNonNegative(counts, lo, hi);
    if counts[0] == 0 {
      WeightedPositive(counts, lo, hi, FirstNonzero(counts));
    }
  }

  /** The specification of the estimator start on a histogram of q+2
      entries: infinity when the saturated bucket holds everything,
      otherwise the clamped range of non-zero entries, its weighted sum z,
      c, a = z + counts[0], b = z + counts[q+1] 2^-q, m' and the seed. */
  function StartOf(counts: seq<nat>): (s: MleStart)
    requires |counts| >= 1
    ensures s.Infinite? <==> counts[|counts| - 1] == Sum(counts)
    ensures s.Ready? ==>
      && 1 <= s.kMin && s.kMax <= |counts| - 2
      && s.z >= 0.0 && s.a > 0.0 && s.b >= s.z
      && s.mPrime <= Sum(counts)
      && (s.seed.Weak? <==> s.b <= 1.5 * s.a)
  {
    if counts[|counts| - 1] == Sum(counts) then Infinite
    else
      UnsaturatedRange(counts);
      var lo, hi := Max(FirstNonzero(counts), 1), Min(LastNonzero(counts), |counts| - 2);
      WeightedNonNegative(counts, lo, hi);
      StartPositive(counts, lo, hi);
      var z := Weighted(counts, lo, hi);
      var c := counts[|counts| - 1] + (if |counts| >= 3 then counts[hi] else 0);
      var a, b := z + counts[0] as real, z + SaturatedMass(counts);
      var mPrime := Sum(counts) - counts[0];
      Ready(lo, hi, z, c, a, b, mPrime, Seed(a, b, mPrime))
  }

  /** The integer prefix of estimateCardinality(counts), where counts has
      q+2 entries and entry q+1 counts saturated registers. */
  method EstimateStart(counts: seq<nat>) returns (s: MleStart)
    requires |counts| >= 1
    ensures s == StartOf(counts)
    ensures s.Infinite? <==> counts[|counts| - 1] == Sum(counts)
    ensures s.Ready? ==>
      && |counts| >= 2
      && s.kMin == Max(FirstNonzero(counts), 1)
      && s.kMax == Min(LastNonzero(counts), |counts| - 2)
      && 1 <= s.kMin <= Max(|counts| - 2, 1) && s.kMax <= |counts| - 2
      && s.z == Weighted(counts, s.kMin, s.kMax) && s.z >= 0.0
      && s.c == counts[|counts| - 1] + (if |counts| >= 3 then counts[s.kMax] else 0)
      && s.a == s.z + counts[0] as real && s.a > 0.0
      && s.b == s.z + SaturatedMass(counts)
      && s.mPrime == Sum(counts) - counts[0]
      && s.seed == Seed(s.a, s.b, s.mPrime)
  {
    var numCounts := |counts| - 1;
    var m := Sum(counts);
    if counts[numCounts] == m {
      return Infinite;
    }
    var q := numCounts - 1;
    UnsaturatedRange(counts);
    var kFirst := FirstNonzero(counts);
    var kLast := LastNonzero(counts);
    var kPrimeMin := Max(kFirst, 1);
    var kPrimeMax := Min(kLast, q);

    var z := Horner(counts, kPrimeMin, kPrimeMax);

    var c := counts[q + 1];
    if q >= 1 {
      c := c + counts[kPrimeMax];
    }
    var a := z + counts[0] as real;
    assert a > 0.0 by {
      StartPositive(counts, kPrimeMin, kPrimeMax);
    }
    var b := z + SaturatedMass(counts);
    var mPrime := m - counts[0];
    s := Ready(kPrimeMin, kPrimeMax, z, c, a, b, mPrime, Seed(a, b, mPrime));
  }

  /** Every register saturated, and the empty histogram, give math.inf. */
  lemma SaturatedIsInfinite(q: nat, m: nat)
    ensures Sum(seq(q + 1, _ => 0) + [m]) == m
  {
    var s := seq(q + 1, _ => 0) + [m];
    assert s[..|s| - 1] == seq(q + 1, _ => 0);
    SumZero(seq(q + 1, _ => 0));
  }

  /** The raw estimate alpha_m * m^2 / sum 2^-register divides by this sum. */
  function HarmonicSum(registers: seq<nat>): (h: real)
    ensures h >= 0.0
    ensures |registers| > 0 ==> h > 0.0
  {
    if |registers| == 0 then 0.0
    else HarmonicSum(registers[..|registers| - 1]) + Scale(registers[|registers| - 1])
  }

  lemma {:induction false} HarmonicSumBounds(registers: seq<nat>)
    ensures HarmonicSum(registers) <= |registers| as real
    ensures (forall i :: 0 <= i < |registers| ==> registers[i] == 0) ==>
              HarmonicSum(registers) == |registers| as real
  {
    if |registers| > 0 {
      HarmonicSumBounds(registers[..|registers| - 1]);
    }
  }

  /** Raising registers can only lower the harmonic sum. */
  lemma {:induction false} HarmonicSumAntitone(r: seq<nat>, s: seq<nat>)
    requires |r| == |s|
    requires forall i :: 0 <= i < |r| ==> r[i] <= s[i]
    ensures HarmonicSum(s) <= HarmonicSum(r)
  {
    if |r| > 0 {
      var n := |r| - 1;
      HarmonicSumAntitone(r[..n], s[..n]);
      ScaleAntitone(r[n], s[n]);
    }
  }

  /** alpha_m = 0.7213 / (1 + 1.079/m), the bias correction factor. */
  function Alpha(m: nat): (alpha: real)
    requires m > 0
    ensures 0.0 < alpha < 1.0
  {
    0.7213 / (1.0 + 1.079 / m as real)
  }

  /** n_raw = alpha_m * m^2 / sum 2^-register. */
  function RawEstimate(registers: seq<nat>): (n: real)
    requires |registers| > 0
    ensures n > 0.0
  {
    var m := |registers| as real;
    Alpha(|registers|) * m * m / HarmonicSum(registers)
  }

  /** The four outcomes of simpleCardinality. The two corrections are
      logarithms and are returned as their arguments: SmallRange(m, c0)
      stands for m log2(m / c0) and LargeRange(n) for
      -2^64 log2(1 - n / 2^64). */
  datatype Simple =
    | DivisionByZero
    | SmallRange(m: nat, zeros: nat)
    | Raw(n: real)
    | LargeRange(nRaw: real)

  /** registers.count(0): how many registers are 0, all of them exactly when
      every register is 0, none exactly when no register is. */
  function ZeroCount(registers: seq<nat>): (c: nat)
    ensures c <= |registers|
    ensures c == |registers| <==> forall i :: 0 <= i < |registers| ==> registers[i] == 0
    ensures c == 0 <==> forall i :: 0 <= i < |registers| ==> registers[i] != 0
  {
    CountIsLength(registers, 0);
    multiset(registers)[0]
  }

  /** A value occurs in every position exactly when its count is the length. */
  lemma {:induction false} CountIsLength(s: seq<nat>, v: nat)
    ensures multiset(s)[v] == |s| <==> forall i :: 0 <= i < |s| ==> s[i] == v
  {
    if |s| > 0 {
      var n := |s| - 1;
      CountIsLength(s[..n], v);
      assert s == s[..n] + [s[n]];
      assert multiset(s[..n])[v] <= |s[..n]|;
      if forall i :: 0 <= i < n ==> s[i] == v {
        assert forall i :: 0 <= i < n ==> s[..n][i] == v;
      }
    }
  }

  /** simpleCardinality(registers): an empty register list divides by zero in
      alpha_m; otherwise the regime is chosen from n_raw. */
  function SimpleCardinality(registers: seq<nat>): (r: Simple)
    ensures r.DivisionByZero? <==> |registers| == 0
    ensures r.SmallRange? ==> r.m == |registers| && 0 < r.zeros <= |registers|
  {
    if |registers| == 0 then DivisionByZero
    else
      var m := |registers|;
      var nRaw := RawEstimate(registers);
      if nRaw <= m as real * 5.0 / 2.0 then
        var c0 := ZeroCount(registers);
        if c0 != 0 then SmallRange(m, c0) else Raw(nRaw)
      else if nRaw <= (Pow2(64) as real) / 30.0 then Raw(nRaw)
      else LargeRange(nRaw)
  }

  /** The raw harmonic estimate is returned unchanged exactly in the middle
      range (2.5m, 2^64/30] and in the small range when no register is 0. */
  lemma SimpleReturnsRaw(registers: seq<nat>)
    requires |registers| > 0
    ensures SimpleCardinality(registers) == Raw(RawEstimate(registers)) <==>
      var m, n := |registers| as real, RawEstimate(registers);
      || (2.5 * m < n <= (Pow2(64) as real) / 30.0)
      || (n <= 2.5 * m && ZeroCount(registers) == 0)
  {
  }

  /** An empty sketch takes the small-range correction with every register
      counted as zero, that is m log2(m/m) = 0. */
  lemma EmptySketchEstimate(m: nat)
    requires m > 0
    ensures RawEstimate(seq(m, _ => 0)) == Alpha(m) * m as real
    ensures SimpleCardinality(seq(m, _ => 0)) == SmallRange(m, m)
  {
    var r := seq(m, _ => 0);
    var mr := m as real;
    assert HarmonicSum(r) == mr by {
      HarmonicSumBounds(r);
    }
    assert RawEstimate(r) == Alpha(m) * mr by {
      assert Alpha(m) * mr * mr / mr == Alpha(m) * mr;
    }
    assert RawEstimate(r) <= mr * 5.0 / 2.0;
    assert ZeroCount(r) == m by {
      ZerosMultiset(m);
    }
  }

  lemma {:induction false} ZerosMultiset(m: nat)
    ensures multiset(seq(m, _ => 0)) == multiset{} [0 := m]
  {
    if m > 0 {
      ZerosMultiset(m - 1);
      assert seq(m, _ => 0) == seq(m - 1, _ => 0) + [0];
    }
  }

  /** Raising registers never lowers the raw estimate. */
  lemma RawEstimateMonotone(r: seq<nat>, s: seq<nat>)
    requires |r| == |s| > 0
    requires forall i :: 0 <= i < |r| ==> r[i] <= s[i]
    ensures RawEstimate(r) <= RawEstimate(s)
  {
    HarmonicSumAntitone(r, s);
    var m := |r| as real;
    var k := Alpha(|r|) * m * m;
    assert k > 0.0;
    DivAntitone(k, HarmonicSum(s), HarmonicSum(r));
  }

  lemma DivAntitone(k: real, x: real, y: real)
    requires k > 0.0 && 0.0 < x <= y
    ensures k / y <= k / x
  {
  }
}
