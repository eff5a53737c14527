/** Similarity.py: the union of two sketches (Ertl, Algorithm 2) and the
    register-pair tabulation that opens the joint estimator (Algorithm 9),
    with the "no intersection" short-circuit. */
module Similarity {
  import opened Arith
  import opened Sketch
  import opened Cardinality

  /** Register-wise maximum of two register lists of the same length: each
      register of the result is one of the two inputs' and at least both. */
  function Merge(r1: seq<nat>, r2: seq<nat>): (r: seq<nat>)
    requires |r1| == |r2|
    ensures |r| == |r1|
    ensures forall i :: 0 <= i < |r| ==> r1[i] <= r[i] && r2[i] <= r[i] && (r[i] == r1[i] || r[i] == r2[i])
  {
    seq(|r1|, i requires 0 <= i < |r1| => Max(r1[i], r2[i]))
  }

  /** Register-wise minimum: the registers the short-circuit looks at. */
  function Meet(r1: seq<nat>, r2: seq<nat>): (r: seq<nat>)
    requires |r1| == |r2|
    ensures |r| == |r1|
  {
    seq(|r1|, i requires 0 <= i < |r1| => Min(r1[i], r2[i]))
  }

  /** Merge is the least upper bound of its two arguments. */
  lemma MergeIsLeastUpperBound(r1: seq<nat>, r2: seq<nat>, s: seq<nat>)
    requires |r1| == |r2| == |s|
    ensures forall i :: 0 <= i < |r1| ==> r1[i] <= Merge(r1, r2)[i] && r2[i] <= Merge(r1, r2)[i]
    ensures (forall i :: 0 <= i < |s| ==> r1[i] <= s[i] && r2[i] <= s[i]) ==>
              forall i :: 0 <= i < |s| ==> Merge(r1, r2)[i] <= s[i]
  {
  }

  lemma MergeCommutative(r1: seq<nat>, r2: seq<nat>)
    requires |r1| == |r2|
    ensures Merge(r1, r2) == Merge(r2, r1)
  {
  }

  lemma MergeAssociative(r1: seq<nat>, r2: seq<nat>, r3: seq<nat>)
    requires |r1| == |r2| == |r3|
    ensures Merge(Merge(r1, r2), r3) == Merge(r1, Merge(r2, r3))
  {
  }

  lemma MergeIdempotent(r: seq<nat>)
    ensures Merge(r, r) == r
  {
  }

  /** Lines 32-34 of union: a fresh list r_new of len(r1) zeros, then
      r_new[i] = max(r1[i], r2[i]) for every index of r1. */
  method MaxRegisters(r1: seq<nat>, r2: seq<nat>) returns (rNew: seq<nat>)
    requires |r1| <= |r2|
    ensures |rNew| == |r1|
    ensures forall i :: 0 <= i < |r1| ==> rNew[i] == Max(r1[i], r2[i])
    ensures rNew == Merge(r1, r2[..|r1|])
  {
    var a := new nat[|r1|](_ => 0);
    for i := 0 to |r1|
      invariant forall k :: 0 <= k < i ==> a[k] == Max(r1[k], r2[k])
    {
      a[i] := Max(r1[i], r2[i]);
    }
    rNew := a[..];
  }

  /** union(hll1, hll2): a new sketch with hll1's precision whose registers are
      the register-wise maximum. The source reads r2[i] for every index of
      r1, so hll2 needs at least as many registers as hll1. */
  method Union(h1: HLL, h2: HLL) returns (h: HLL)
    requires h1.Valid() && h2.Valid() && h1.m <= h2.m
    ensures fresh(h) && h.Valid()
    ensures h.p == h1.p && h.q == h1.q && h.m == h1.m
    ensures h.registers == Merge(h1.registers, h2.registers[..h1.m])
    ensures h1.registers == old(h1.registers) && h2.registers == old(h2.registers)
  {
    Pow2Ordered(h1.p, h2.p);
    var rNew := MaxRegisters(h1.registers, h2.registers);
    h := new HLL.WithRegisters(h1.p, rNew);
  }

  /** A sketch with no more registers than another has no fewer remaining
      bits, so the other's registers fit its rank range. */
  lemma {:induction false} Pow2Ordered(a: nat, b: nat)
    ensures a < b ==> Pow2(a) < Pow2(b)
    ensures Pow2(a) <= Pow2(b) ==> a <= b
  {
    if a < b {
      Pow2Ordered(a, b - 1);
    } else if b < a {
      Pow2Ordered(b, a - 1);
    }
  }

  /** The five multiplicity vectors of getJointEstimators: one per side of
      each of the comparisons r1 < r2, r1 > r2 and r1 == r2. */
  datatype Joint = Joint(c1Less: seq<nat>, c2Less: seq<nat>, cEqual: seq<nat>,
                         c1Greater: seq<nat>, c2Greater: seq<nat>)

  /** Which vector a register pair (a, b) is tallied in, and with which value. */
  datatype Cell = OneLess | TwoLess | Equal | OneGreater | TwoGreater

  predicate Falls(a: nat, b: nat, cell: Cell)
  {
    match cell
    case OneLess => a < b
    case TwoGreater => a < b
    case OneGreater => a > b
    case TwoLess => a > b
    case Equal => a == b
  }

  function Side(a: nat, b: nat, cell: Cell): nat
  {
    match cell
    case OneLess => a
    case OneGreater => a
    case Equal => a
    case TwoLess => b
    case TwoGreater => b
  }

  /** The values tallied in one vector by the first i register pairs, in
      index order. */
  function Pick(r1: seq<nat>, r2: seq<nat>, cell: Cell, i: nat): seq<nat>
    requires i <= |r1| == |r2|
  {
    if i == 0 then []
    else
      Pick(r1, r2, cell, i - 1)
        + (if Falls(r1[i - 1], r2[i - 1], cell) then [Side(r1[i - 1], r2[i - 1], cell)] else [])
  }

  /** The specification of the tabulation: each vector is the histogram of
      the values tallied in it over all register pairs. */
  function JointOf(r1: seq<nat>, r2: seq<nat>, q: nat): Joint
    requires |r1| == |r2|
  {
    var n := |r1|;
    Joint(Hist(Pick(r1, r2, OneLess, n), q + 2), Hist(Pick(r1, r2, TwoLess, n), q + 2),
          Hist(Pick(r1, r2, Equal, n), q + 2), Hist(Pick(r1, r2, OneGreater, n), q + 2),
          Hist(Pick(r1, r2, TwoGreater, n), q + 2))
  }

  /** Array c holds the histogram of the values t. */
  ghost predicate Tallies(c: array<nat>, t: seq<nat>)
    reads c
  {
    forall k :: 0 <= k < c.Length ==> c[k] == multiset(t)[k]
  }

  /** C[v] += 1 on a numpy vector: one more occurrence of v. */
  method Increment(c: array<nat>, v: nat, ghost t: seq<nat>)
    requires v < c.Length && Tallies(c, t)
    modifies c
    ensures Tallies(c, t + [v])
  {
    assert multiset(t + [v]) == multiset(t) + multiset{v};
    c[v] := c[v] + 1;
  }

  lemma TalliesHist(c: array<nat>, t: seq<nat>)
    requires Tallies(c, t)
    ensures c[..] == Hist(t, c.Length)
  {
  }

  /** One iteration of the tabulation loop: the pair (r1[i], r2[i]) adds one
      to C1_less[r1[i]] and C2_greater[r2[i]] when r1[i] < r2[i], to
      C1_greater[r1[i]] and C2_less[r2[i]] when r1[i] > r2[i], and to
      C_equal[r1[i]] otherwise. */
  method TallyPair(c1Less: array<nat>, c2Less: array<nat>, cEqual: array<nat>,
                   c1Greater: array<nat>, c2Greater: array<nat>,
                   r1: seq<nat>, r2: seq<nat>, i: nat)
    requires |r1| == |r2| && i < |r1|
    requires r1[i] < c1Less.Length && r1[i] < c1Greater.Length && r1[i] < cEqual.Length
    requires r2[i] < c2Less.Length && r2[i] < c2Greater.Length
    requires c1Less != c2Less && c1Less != cEqual && c1Less != c1Greater && c1Less != c2Greater
    requires c2Less != cEqual && c2Less != c1Greater && c2Less != c2Greater
    requires cEqual != c1Greater && cEqual != c2Greater && c1Greater != c2Greater
    requires Tallies(c1Less, Pick(r1, r2, OneLess, i))
    requires Tallies(c2Less, Pick(r1, r2, TwoLess, i))
    requires Tallies(cEqual, Pick(r1, r2, Equal, i))
    requires Tallies(c1Greater, Pick(r1, r2, OneGreater, i))
    requires Tallies(c2Greater, Pick(r1, r2, TwoGreater, i))
    modifies c1Less, c2Less, cEqual, c1Greater, c2Greater
    ensures Tallies(c1Less, Pick(r1, r2, OneLess, i + 1))
    ensures Tallies(c2Less, Pick(r1, r2, TwoLess, i + 1))
    ensures Tallies(cEqual, Pick(r1, r2, Equal, i + 1))
    ensures Tallies(c1Greater, Pick(r1, r2, OneGreater, i + 1))
    ensures Tallies(c2Greater, Pick(r1, r2, TwoGreater, i + 1))
  {
    var a, b := r1[i], r2[i];
    if a < b {
      Increment(c1Less, a, Pick(r1, r2, OneLess, i));
      Increment(c2Greater, b, Pick(r1, r2, TwoGreater, i));
    } else if a > b {
      Increment(c1Greater, a, Pick(r1, r2, OneGreater, i));
      Increment(c2Less, b, Pick(r1, r2, TwoLess, i));
    } else {
      Increment(cEqual, a, Pick(r1, r2, Equal, i));
    }
  }

  /** np.zeros(n): a fresh vector of n zeros, the histogram of nothing. */
  method Zeros(n: nat) returns (c: array<nat>)
    ensures fresh(c) && c.Length == n
    ensures Tallies(c, [])
  {
    c := new nat[n](_ => 0);
  }

  /** Lines 80-95 of getJointEstimators: five zero vectors of length q+2, then
      for every index of r1 one increment in C1_less and C2_greater (r1 < r2),
      in C1_greater and C2_less (r1 > r2), or in C_equal (r1 == r2). */
  method Tabulate(r1: seq<nat>, r2: seq<nat>, q: nat) returns (j: Joint)
    requires |r1| <= |r2|
    requires forall i :: 0 <= i < |r1| ==> r1[i] <= q + 1 && r2[i] <= q + 1
    ensures j == JointOf(r1, r2[..|r1|], q)
  {
    var c1Less := Zeros(q + 2);
    var c2Less := Zeros(q + 2);
    var c1Greater := Zeros(q + 2);
    var c2Greater := Zeros(q + 2);
    var cEqual := Zeros(q + 2);
    var s2 := r2[..|r1|];
    for i := 0 to |r1|
      invariant Tallies(c1Less, Pick(r1, s2, OneLess, i))
      invariant Tallies(c2Less, Pick(r1, s2, TwoLess, i))
      invariant Tallies(cEqual, Pick(r1, s2, Equal, i))
      invariant Tallies(c1Greater, Pick(r1, s2, OneGreater, i))
      invariant Tallies(c2Greater, Pick(r1, s2, TwoGreater, i))
    {
      TallyPair(c1Less, c2Less, cEqual, c1Greater, c2Greater, r1, s2, i);
    }
    TalliedJoint(c1Less, c2Less, cEqual, c1Greater, c2Greater, r1, s2, q);
    j := Joint(c1Less[..], c2Less[..], cEqual[..], c1Greater[..], c2Greater[..]);
  }

  /** Once all register pairs are tallied, the five vectors are JointOf. */
  lemma TalliedJoint(c1Less: array<nat>, c2Less: array<nat>, cEqual: array<nat>,
                     c1Greater: array<nat>, c2Greater: array<nat>,
                     r1: seq<nat>, r2: seq<nat>, q: nat)
    requires |r1| == |r2|
    requires c1Less.Length == c2Less.Length == cEqual.Length == q + 2
    requires c1Greater.Length == c2Greater.Length == q + 2
    requires Tallies(c1Less, Pick(r1, r2, OneLess, |r1|))
    requires Tallies(c2Less, Pick(r1, r2, TwoLess, |r1|))
    requires Tallies(cEqual, Pick(r1, r2, Equal, |r1|))
    requires Tallies(c1Greater, Pick(r1, r2, OneGreater, |r1|))
    requires Tallies(c2Greater, Pick(r1, r2, TwoGreater, |r1|))
    ensures Joint(c1Less[..], c2Less[..], cEqual[..], c1Greater[..], c2Greater[..]) == JointOf(r1, r2, q)
  {
    TalliesHist(c1Less, Pick(r1, r2, OneLess, |r1|));
    TalliesHist(c2Less, Pick(r1, r2, TwoLess, |r1|));
    TalliesHist(cEqual, Pick(r1, r2, Equal, |r1|));
    TalliesHist(c1Greater, Pick(r1, r2, OneGreater, |r1|));
    TalliesHist(c2Greater, Pick(r1, r2, TwoGreater, |r1|));
  }

  /** numpy's element-wise sum of three vectors of the same length. */
  function Add3(x: seq<nat>, y: seq<nat>, z: seq<nat>): (r: seq<nat>)
    requires |x| == |y| == |z|
    ensures |r| == |x|
  {
    seq(|x|, k requires 0 <= k < |x| => x[k] + y[k] + z[k])
  }

  /** The total of the element-wise sum is the sum of the three totals. */
  lemma {:induction false} SumAdd3(x: seq<nat>, y: seq<nat>, z: seq<nat>)
    requires |x| == |y| == |z|
    ensures Sum(Add3(x, y, z)) == Sum(x) + Sum(y) + Sum(z)
    decreases |x|
  {
    if |x| > 0 {
      var n := |x| - 1;
      SumAdd3(x[..n], y[..n], z[..n]);
      assert Add3(x, y, z)[..n] == Add3(x[..n], y[..n], z[..n]);
    }
  }

  /** Every register pair lands in exactly one comparison, so the two
      sides of each strict comparison tally the same number of pairs. */
  lemma {:induction false} PickLengths(r1: seq<nat>, r2: seq<nat>, i: nat)
    requires i <= |r1| == |r2|
    ensures |Pick(r1, r2, OneLess, i)| == |Pick(r1, r2, TwoGreater, i)|
    ensures |Pick(r1, r2, OneGreater, i)| == |Pick(r1, r2, TwoLess, i)|
  {
    if i > 0 {
      PickLengths(r1, r2, i - 1);
    }
  }

  /** Every value tallied is one of the registers, so it is at most q + 1. */
  lemma {:induction false} PickBounded(r1: seq<nat>, r2: seq<nat>, cell: Cell, q: nat, i: nat)
    requires i <= |r1| == |r2|
    requires forall k :: 0 <= k < |r1| ==> r1[k] <= q + 1 && r2[k] <= q + 1
    ensures forall k :: 0 <= k < |Pick(r1, r2, cell, i)| ==> Pick(r1, r2, cell, i)[k] < q + 2
  {
    if i > 0 {
      PickBounded(r1, r2, cell, q, i - 1);
    }
  }

  /** Pair i - 1 lands in exactly one of the cells x, y, z, and the value
      it tallies there is v. */
  predicate FallsOnce(a: nat, b: nat, x: Cell, y: Cell, z: Cell, v: nat)
  {
    || (Falls(a, b, x) && !Falls(a, b, y) && !Falls(a, b, z) && Side(a, b, x) == v)
    || (!Falls(a, b, x) && Falls(a, b, y) && !Falls(a, b, z) && Side(a, b, y) == v)
    || (!Falls(a, b, x) && !Falls(a, b, y) && Falls(a, b, z) && Side(a, b, z) == v)
  }

  /** One more pair adds its value to one vector, or to none. */
  lemma PickStep(r1: seq<nat>, r2: seq<nat>, cell: Cell, i: nat)
    requires 0 < i <= |r1| == |r2|
    ensures var a, b := r1[i - 1], r2[i - 1];
      multiset(Pick(r1, r2, cell, i))
        == multiset(Pick(r1, r2, cell, i - 1)) + (if Falls(a, b, cell) then multiset{Side(a, b, cell)} else multiset{})
  {
  }

  /** Over three cells that split the pairs, one more pair adds its value to
      their union exactly once. */
  lemma SplitStep(r1: seq<nat>, r2: seq<nat>, i: nat, x: Cell, y: Cell, z: Cell, v: nat)
    requires 0 < i <= |r1| == |r2|
    requires FallsOnce(r1[i - 1], r2[i - 1], x, y, z, v)
    ensures multiset(Pick(r1, r2, x, i)) + multiset(Pick(r1, r2, y, i)) + multiset(Pick(r1, r2, z, i))
      == multiset(Pick(r1, r2, x, i - 1)) + multiset(Pick(r1, r2, y, i - 1)) + multiset(Pick(r1, r2, z, i - 1)) + multiset{v}
  {
    var a, b := r1[i - 1], r2[i - 1];
    var x0, y0, z0 := multiset(Pick(r1, r2, x, i - 1)), multiset(Pick(r1, r2, y, i - 1)), multiset(Pick(r1, r2, z, i - 1));
    PickStep(r1, r2, x, i);
    PickStep(r1, r2, y, i);
    PickStep(r1, r2, z, i);
    if Falls(a, b, x) {
      assert multiset(Pick(r1, r2, x, i)) == x0 + multiset{v};
      assert multiset(Pick(r1, r2, y, i)) == y0 && multiset(Pick(r1, r2, z, i)) == z0;
    } else if Falls(a, b, y) {
      assert multiset(Pick(r1, r2, y, i)) == y0 + multiset{v};
      assert multiset(Pick(r1, r2, x, i)) == x0 && multiset(Pick(r1, r2, z, i)) == z0;
    } else {
      assert multiset(Pick(r1, r2, z, i)) == z0 + multiset{v};
      assert multiset(Pick(r1, r2, x, i)) == x0 && multiset(Pick(r1, r2, y, i)) == y0;
    }
  }

  /** The multiset of a prefix grows by one element. */
  lemma PrefixSnoc(w: seq<nat>, i: nat)
    requires 0 < i <= |w|
    ensures multiset(w[..i]) == multiset(w[..i - 1]) + multiset{w[i - 1]}
  {
    assert w[..i] == w[..i - 1] + [w[i - 1]];
  }

  /** The registers of r1, split by comparison: r1 < r2, r1 == r2, r1 > r2. */
  lemma {:induction false} PickSplitsFirst(r1: seq<nat>, r2: seq<nat>, i: nat)
    requires i <= |r1| == |r2|
    ensures multiset(r1[..i]) == multiset(Pick(r1, r2, OneLess, i)) + multiset(Pick(r1, r2, Equal, i)) + multiset(Pick(r1, r2, OneGreater, i))
  {
    if i > 0 {
      PickSplitsFirst(r1, r2, i - 1);
      PickSplitsFirstStep(r1, r2, i);
      PrefixSnoc(r1, i);
    }
  }

  lemma PickSplitsFirstStep(r1: seq<nat>, r2: seq<nat>, i: nat)
    requires 0 < i <= |r1| == |r2|
    ensures multiset(Pick(r1, r2, OneLess, i)) + multiset(Pick(r1, r2, Equal, i)) + multiset(Pick(r1, r2, OneGreater, i))
      == multiset(Pick(r1, r2, OneLess, i - 1)) + multiset(Pick(r1, r2, Equal, i - 1)) + multiset(Pick(r1, r2, OneGreater, i - 1)) + multiset{r1[i - 1]}
  {
    SplitStep(r1, r2, i, OneLess, Equal, OneGreater, r1[i - 1]);
  }

  /** The registers of r2, split by comparison: r1 < r2, r1 == r2, r1 > r2. */
  lemma {:induction false} PickSplitsSecond(r1: seq<nat>, r2: seq<nat>, i: nat)
    requires i <= |r1| == |r2|
    ensures multiset(r2[..i]) == multiset(Pick(r1, r2, TwoGreater, i)) + multiset(Pick(r1, r2, Equal, i)) + multiset(Pick(r1, r2, TwoLess, i))
  {
    if i > 0 {
      PickSplitsSecond(r1, r2, i - 1);
      PickSplitsSecondStep(r1, r2, i);
      PrefixSnoc(r2, i);
    }
  }

  lemma PickSplitsSecondStep(r1: seq<nat>, r2: seq<nat>, i: nat)
    requires 0 < i <= |r1| == |r2|
    ensures multiset(Pick(r1, r2, TwoGreater, i)) + multiset(Pick(r1, r2, Equal, i)) + multiset(Pick(r1, r2, TwoLess, i))
      == multiset(Pick(r1, r2, TwoGreater, i - 1)) + multiset(Pick(r1, r2, Equal, i - 1)) + multiset(Pick(r1, r2, TwoLess, i - 1)) + multiset{r2[i - 1]}
  {
    SplitStep(r1, r2, i, TwoGreater, Equal, TwoLess, r2[i - 1]);
  }

  /** The union keeps the larger register of every pair. */
  lemma {:induction false} PickSplitsMerge(r1: seq<nat>, r2: seq<nat>, i: nat)
    requires i <= |r1| == |r2|
    ensures multiset(Merge(r1, r2)[..i]) == multiset(Pick(r1, r2, OneGreater, i)) + multiset(Pick(r1, r2, Equal, i)) + multiset(Pick(r1, r2, TwoGreater, i))
  {
    if i > 0 {
      PickSplitsMerge(r1, r2, i - 1);
      PickSplitsMergeStep(r1, r2, i);
      PrefixSnoc(Merge(r1, r2), i);
    }
  }

  lemma PickSplitsMergeStep(r1: seq<nat>, r2: seq<nat>, i: nat)
    requires 0 < i <= |r1| == |r2|
    ensures multiset(Pick(r1, r2, OneGreater, i)) + multiset(Pick(r1, r2, Equal, i)) + multiset(Pick(r1, r2, TwoGreater, i))
      == multiset(Pick(r1, r2, OneGreater, i - 1)) + multiset(Pick(r1, r2, Equal, i - 1)) + multiset(Pick(r1, r2, TwoGreater, i - 1)) + multiset{Merge(r1, r2)[i - 1]}
  {
    assert Merge(r1, r2)[i - 1] == Max(r1[i - 1], r2[i - 1]);
    SplitStep(r1, r2, i, OneGreater, Equal, TwoGreater, Merge(r1, r2)[i - 1]);
  }

  /** The minimum of every pair: the smaller side of each comparison. */
  lemma {:induction false} PickSplitsMeet(r1: seq<nat>, r2: seq<nat>, i: nat)
    requires i <= |r1| == |r2|
    ensures multiset(Meet(r1, r2)[..i]) == multiset(Pick(r1, r2, OneLess, i)) + multiset(Pick(r1, r2, Equal, i)) + multiset(Pick(r1, r2, TwoLess, i))
  {
    if i > 0 {
      PickSplitsMeet(r1, r2, i - 1);
      PickSplitsMeetStep(r1, r2, i);
      PrefixSnoc(Meet(r1, r2), i);
    }
  }

  lemma PickSplitsMeetStep(r1: seq<nat>, r2: seq<nat>, i: nat)
    requires 0 < i <= |r1| == |r2|
    ensures multiset(Pick(r1, r2, OneLess, i)) + multiset(Pick(r1, r2, Equal, i)) + multiset(Pick(r1, r2, TwoLess, i))
      == multiset(Pick(r1, r2, OneLess, i - 1)) + multiset(Pick(r1, r2, Equal, i - 1)) + multiset(Pick(r1, r2, TwoLess, i - 1)) + multiset{Meet(r1, r2)[i - 1]}
  {
    assert Meet(r1, r2)[i - 1] == Min(r1[i - 1], r2[i - 1]);
    SplitStep(r1, r2, i, OneLess, Equal, TwoLess, Meet(r1, r2)[i - 1]);
  }

  /** Histograms add up when the multisets they count do. */
  lemma HistAdd3(x: seq<nat>, y: seq<nat>, z: seq<nat>, w: seq<nat>, n: nat)
    requires multiset(w) == multiset(x) + multiset(y) + multiset(z)
    ensures Add3(Hist(x, n), Hist(y, n), Hist(z, n)) == Hist(w, n)
  {
  }

  /** Each register adds one to exactly one of C1_less, C_equal, C1_greater,
      and the two sides of each strict comparison hold as many registers. */
  lemma JointTotals(r1: seq<nat>, r2: seq<nat>, q: nat)
    requires |r1| == |r2|
    requires forall i :: 0 <= i < |r1| ==> r1[i] <= q + 1 && r2[i] <= q + 1
    ensures var j := JointOf(r1, r2, q);
      && Sum(j.c1Less) + Sum(j.cEqual) + Sum(j.c1Greater) == |r1|
      && Sum(j.c1Less) == Sum(j.c2Greater)
      && Sum(j.c1Greater) == Sum(j.c2Less)
  {
    var n := |r1|;
    var x, y, z := Pick(r1, r2, OneLess, n), Pick(r1, r2, Equal, n), Pick(r1, r2, OneGreater, n);
    PickLengths(r1, r2, n);
    assert |x| + |y| + |z| == n by {
      PickSplitsFirst(r1, r2, n);
      assert r1[..n] == r1;
      assert |multiset(r1)| == |multiset(x)| + |multiset(y)| + |multiset(z)|;
    }
    PickBounded(r1, r2, OneLess, q, n);
    PickBounded(r1, r2, TwoLess, q, n);
    PickBounded(r1, r2, Equal, q, n);
    PickBounded(r1, r2, OneGreater, q, n);
    PickBounded(r1, r2, TwoGreater, q, n);
    HistTotal(x, q + 2);
    HistTotal(Pick(r1, r2, TwoLess, n), q + 2);
    HistTotal(y, q + 2);
    HistTotal(z, q + 2);
    HistTotal(Pick(r1, r2, TwoGreater, n), q + 2);
  }

  /** C1_less + C_equal + C1_greater is the multiplicity vector of r1: the
      vector the MLE estimate of |A| starts from. */
  lemma FirstMarginal(r1: seq<nat>, r2: seq<nat>, q: nat)
    requires |r1| == |r2|
    requires forall i :: 0 <= i < |r1| ==> r1[i] <= q + 1 && r2[i] <= q + 1
    ensures var j := JointOf(r1, r2, q);
      Add3(j.c1Less, j.cEqual, j.c1Greater) == Multiplicity(r1, q)
  {
    var n := |r1|;
    PickSplitsFirst(r1, r2, n);
    assert r1[..n] == r1;
    HistAdd3(Pick(r1, r2, OneLess, n), Pick(r1, r2, Equal, n), Pick(r1, r2, OneGreater, n), r1, q + 2);
  }

  /** C2_greater + C_equal + C2_less is the multiplicity vector of r2. */
  lemma SecondMarginal(r1: seq<nat>, r2: seq<nat>, q: nat)
    requires |r1| == |r2|
    requires forall i :: 0 <= i < |r1| ==> r1[i] <= q + 1 && r2[i] <= q + 1
    ensures var j := JointOf(r1, r2, q);
      Add3(j.c2Greater, j.cEqual, j.c2Less) == Multiplicity(r2, q)
  {
    var n := |r1|;
    PickSplitsSecond(r1, r2, n);
    assert r2[..n] == r2;
    HistAdd3(Pick(r1, r2, TwoGreater, n), Pick(r1, r2, Equal, n), Pick(r1, r2, TwoLess, n), r2, q + 2);
  }

  /** C1_greater + C_equal + C2_greater is the multiplicity vector of the
      registers union() builds. */
  lemma UnionMarginal(r1: seq<nat>, r2: seq<nat>, q: nat)
    requires |r1| == |r2|
    requires forall i :: 0 <= i < |r1| ==> r1[i] <= q + 1 && r2[i] <= q + 1
    ensures forall i :: 0 <= i < |r1| ==> Merge(r1, r2)[i] <= q + 1
    ensures var j := JointOf(r1, r2, q);
      Add3(j.c1Greater, j.cEqual, j.c2Greater) == Multiplicity(Merge(r1, r2), q)
  {
    var n := |r1|;
    var w := Merge(r1, r2);
    PickSplitsMerge(r1, r2, n);
    assert w[..n] == w;
    HistAdd3(Pick(r1, r2, OneGreater, n), Pick(r1, r2, Equal, n), Pick(r1, r2, TwoGreater, n), w, q + 2);
  }

  /** The short-circuit test C1_less[0] + C_equal[0] + C2_less[0] == m holds
      exactly when at every index one of the two registers is 0. */
  lemma NoIntersectionTest(r1: seq<nat>, r2: seq<nat>, q: nat)
    requires |r1| == |r2|
    ensures var j := JointOf(r1, r2, q);
      j.c1Less[0] + j.cEqual[0] + j.c2Less[0] == |r1| <==>
        forall i :: 0 <= i < |r1| ==> Min(r1[i], r2[i]) == 0
  {
    var n := |r1|;
    var j := JointOf(r1, r2, q);
    var w := Meet(r1, r2);
    assert j.c1Less[0] + j.cEqual[0] + j.c2Less[0] == multiset(w)[0] by {
      PickSplitsMeet(r1, r2, n);
      assert w[..n] == w;
    }
    assert multiset(w)[0] == n <==> forall i :: 0 <= i < n ==> Min(r1[i], r2[i]) == 0 by {
      CountIsLength(w, 0);
      assert forall i :: 0 <= i < n ==> w[i] == Min(r1[i], r2[i]);
    }
  }

  /** A register list is saturated everywhere exactly when the top bucket of
      its multiplicity vector holds all of it. */
  lemma SaturatedMultiplicity(r: seq<nat>, q: nat)
    requires forall i :: 0 <= i < |r| ==> r[i] <= q + 1
    ensures var c := Multiplicity(r, q);
      c[q + 1] == Sum(c) <==> forall i :: 0 <= i < |r| ==> r[i] == q + 1
  {
    CountIsLength(r, q + 1);
  }

  /** The first half of getJointEstimators(hll1, hll2): the five vectors, the
      starts of the MLE estimates of both sketches from their marginal
      vectors, and whether the short-circuit returns an intersection of 0. */
  method GetJointEstimators(h1: HLL, h2: HLL)
    returns (j: Joint, startA: MleStart, startB: MleStart, noIntersection: bool)
    requires h1.Valid() && h2.Valid() && h1.m <= h2.m
    ensures j == JointOf(h1.registers, h2.registers[..h1.m], h1.q)
    ensures startA == StartOf(Multiplicity(h1.registers, h1.q))
    ensures forall i :: 0 <= i < h1.m ==> h2.registers[i] <= h1.q + 1
    ensures startB == StartOf(Multiplicity(h2.registers[..h1.m], h1.q))
    ensures noIntersection <==> forall i :: 0 <= i < h1.m ==> Min(h1.registers[i], h2.registers[i]) == 0
  {
    PrefixRanks(h1, h2);
    var r1, r2 := h1.registers, h2.registers[..h1.m];
    j, startA, startB, noIntersection := JointStart(r1, r2, h1.q);
    PrefixMeet(r1, h2.registers, h1.m, noIntersection);
  }

  /** The short-circuit test JointStart states about the prefix s[..m] that
      getJointEstimators reads, restated about the entries of s themselves. */
  lemma PrefixMeet(r1: seq<nat>, s: seq<nat>, m: nat, noIntersection: bool)
    requires |r1| == m <= |s|
    requires noIntersection <==> forall i :: 0 <= i < |r1| ==> Min(r1[i], s[..m][i]) == 0
    ensures noIntersection <==> forall i :: 0 <= i < m ==> Min(r1[i], s[i]) == 0
  {
    assert forall i :: 0 <= i < m ==> s[..m][i] == s[i];
  }

  /** estimateCardinality on the multiplicity vector of a register list is
      infinite exactly when every register is saturated. */
  lemma MarginalInfinite(r: seq<nat>, q: nat)
    requires forall i :: 0 <= i < |r| ==> r[i] <= q + 1
    ensures StartOf(Multiplicity(r, q)).Infinite? <==> forall i :: 0 <= i < |r| ==> r[i] == q + 1
  {
    SaturatedMultiplicity(r, q);
  }

  /** hll2 has no more remaining bits than hll1, so the registers of hll2 that
      getJointEstimators reads fit hll1's rank range. */
  lemma PrefixRanks(h1: HLL, h2: HLL)
    requires h1.Valid() && h2.Valid() && h1.m <= h2.m
    ensures |h2.registers[..h1.m]| == |h1.registers| >= 1
    ensures forall i :: 0 <= i < h1.m ==> h2.registers[..h1.m][i] == h2.registers[i]
    ensures forall i :: 0 <= i < h1.m ==> h2.registers[i] <= h1.q + 1
  {
    Pow2Ordered(h1.p, h2.p);
  }

  /** The same on two register lists of equal length. */
  method JointStart(r1: seq<nat>, r2: seq<nat>, q: nat)
    returns (j: Joint, startA: MleStart, startB: MleStart, noIntersection: bool)
    requires |r1| == |r2| >= 1
    requires forall i :: 0 <= i < |r1| ==> r1[i] <= q + 1 && r2[i] <= q + 1
    ensures j == JointOf(r1, r2, q)
    ensures startA == StartOf(Multiplicity(r1, q)) && startB == StartOf(Multiplicity(r2, q))
    ensures startA.Infinite? <==> forall i :: 0 <= i < |r1| ==> r1[i] == q + 1
    ensures startB.Infinite? <==> forall i :: 0 <= i < |r2| ==> r2[i] == q + 1
    ensures noIntersection <==> forall i :: 0 <= i < |r1| ==> Min(r1[i], r2[i]) == 0
  {
    j := Tabulate(r1, r2, q);
    assert r2[..|r1|] == r2;
    FirstMarginal(r1, r2, q);
    startA := MarginalStart(Add3(j.c1Less, j.cEqual, j.c1Greater), r1, q);
    SecondMarginal(r1, r2, q);
    startB := MarginalStart(Add3(j.c2Greater, j.cEqual, j.c2Less), r2, q);
    noIntersection := j.c1Less[0] + j.cEqual[0] + j.c2Less[0] == |r1|;
    NoIntersectionTest(r1, r2, q);
  }

  /** estimateCardinality started on a marginal multiplicity vector: it
      returns infinity exactly when every register is saturated. */
  method MarginalStart(counts: seq<nat>, r: seq<nat>, q: nat) returns (s: MleStart)
    requires |r| >= 1
    requires forall i :: 0 <= i < |r| ==> r[i] <= q + 1
    requires counts == Multiplicity(r, q)
    ensures s == StartOf(counts)
    ensures s.Infinite? <==> forall i :: 0 <= i < |r| ==> r[i] == q + 1
  {
    s := EstimateStart(counts);
    SaturatedMultiplicity(r, q);
  }

  /** intersection(hll1, hll2): 0 when the short-circuit applies; otherwise
      the value comes from the numerical optimizer, outside this model (None). */
  method Intersection(h1: HLL, h2: HLL) returns (x: Option<real>)
    requires h1.Valid() && h2.Valid() && h1.m <= h2.m
    ensures x.Some? <==> forall i :: 0 <= i < h1.m ==> Min(h1.registers[i], h2.registers[i]) == 0
    ensures x.Some? ==> x.value == 0.0
  {
    var j, startA, startB, noIntersection := GetJointEstimators(h1, h2);
    x := if noIntersection then Some(0.0) else None;
  }

  /** The union's raw harmonic estimate is at least that of either sketch. */
  lemma UnionRawEstimate(r1: seq<nat>, r2: seq<nat>)
    requires |r1| == |r2| > 0
    ensures RawEstimate(Merge(r1, r2)) >= RawEstimate(r1)
    ensures RawEstimate(Merge(r1, r2)) >= RawEstimate(r2)
  {
    RawEstimateMonotone(r1, Merge(r1, r2));
    RawEstimateMonotone(r2, Merge(r1, r2));
  }
}
