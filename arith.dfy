/** Shared arithmetic for the sketch model: powers of two, exact binary
    fractions 2^-k as reals, sums of count vectors, and the two facts about
    Euclidean division that the hash proofs need. */
module Arith {

  datatype Option<+T> = None | Some(value: T)

  function Max(a: int, b: int): int { if a >= b then a else b }

  function Min(a: int, b: int): int { if a <= b then a else b }

  /** 2^n as an integer. */
  function Pow2(n: nat): (r: nat)
    ensures r >= 1
  {
    if n == 0 then 1 else 2 * Pow2(n - 1)
  }

  lemma {:induction false} Pow2Add(a: nat, b: nat)
    ensures Pow2(a + b) == Pow2(a) * Pow2(b)
  {
    if a > 0 {
      Pow2Add(a - 1, b);
    }
  }

  /** The powers of two that appear as literals in the hash functions. */
  lemma Pow2Literals()
    ensures Pow2(2) == 4 && Pow2(3) == 8 && Pow2(4) == 16 && Pow2(8) == 256
    ensures Pow2(11) == 0x800 && Pow2(12) == 0x1000 && Pow2(14) == 0x4000
    ensures Pow2(15) == 0x8000 && Pow2(16) == 0x1_0000 && Pow2(21) == 0x20_0000
    ensures Pow2(24) == 0x100_0000 && Pow2(28) == 0x1000_0000
    ensures Pow2(31) == 0x8000_0000 && Pow2(32) == 0x1_0000_0000
    ensures Pow2(64) == 0x1_0000_0000_0000_0000
  {
    assert Pow2(2) == 4;
    Pow2Add(1, 2);
    Pow2Add(2, 2);
    Pow2Add(4, 4);
    Pow2Add(8, 3);
    Pow2Add(8, 4);
    Pow2Add(12, 2);
    Pow2Add(12, 3);
    Pow2Add(8, 8);
    Pow2Add(16, 4);
    Pow2Add(20, 1);
    Pow2Add(16, 8);
    Pow2Add(24, 4);
    Pow2Add(28, 3);
    Pow2Add(16, 16);
    Pow2Add(32, 32);
  }

  /** 2^-k as an exact real. */
  function Scale(k: nat): (r: real)
    ensures 0.0 < r <= 1.0
  {
    if k == 0 then 1.0 else Scale(k - 1) / 2.0
  }

  lemma {:induction false} ScaleAntitone(j: nat, k: nat)
    requires j <= k
    ensures Scale(k) <= Scale(j)
  {
    if j < k {
      ScaleAntitone(j, k - 1);
    }
  }

  /** Python's sum() over a list of non-negative counts. */
  function Sum(s: seq<nat>): nat
  {
    if |s| == 0 then 0 else Sum(s[..|s| - 1]) + s[|s| - 1]
  }

  /** Adding one to a single entry adds one to the total. */
  lemma {:induction false} SumBump(s: seq<nat>, v: nat)
    requires v < |s|
    ensures Sum(s[v := s[v] + 1]) == Sum(s) + 1
  {
    var n := |s| - 1;
    var t := s[v := s[v] + 1];
    assert t[..n] == if v < n then s[..n][v := s[v] + 1] else s[..n];
    if v < n {
      SumBump(s[..n], v);
    }
  }

  /** Every entry is at most the total, and a total above one entry leaves
      something non-zero among the others. */
  lemma {:induction false} SumAtLeastEntry(s: seq<nat>, v: nat)
    requires v < |s|
    ensures s[v] <= Sum(s)
    ensures Sum(s) > s[v] ==> exists j :: 0 <= j < |s| && j != v && s[j] != 0
  {
    var n := |s| - 1;
    if v < n {
      SumAtLeastEntry(s[..n], v);
      if Sum(s) > s[v] && s[n] == 0 {
        var j :| 0 <= j < n && j != v && s[..n][j] != 0;
        assert s[j] != 0;
      }
    } else if Sum(s) > s[v] {
      SumZero(s[..n]);
      var j :| 0 <= j < n && s[..n][j] != 0;
      assert s[j] != 0;
    }
  }

  /** A sequence whose entries are all zero sums to zero, and only such a one. */
  lemma {:induction false} SumZero(s: seq<nat>)
    ensures Sum(s) == 0 <==> forall j :: 0 <= j < |s| ==> s[j] == 0
  {
    if |s| > 0 {
      var n := |s| - 1;
      SumZero(s[..n]);
      if Sum(s) == 0 {
        forall j | 0 <= j < |s| ensures s[j] == 0 {
          if j < n { assert s[..n][j] == s[j]; }
        }
      } else {
        if s[n] == 0 {
          var j :| 0 <= j < n && s[..n][j] != 0;
          assert s[j] != 0;
        }
      }
    }
  }

  /** Euclidean division is determined by any quotient/remainder pair. */
  lemma DivModUnique(a: int, d: int, t: int, r: int)
    requires d > 0 && 0 <= r < d && a == d * t + r
    ensures a / d == t && a % d == r
  {
    var t', r' := a / d, a % d;
    assert d * (t - t') == r' - r;
    if t > t' {
      MulAtLeast(d, t - t');
    } else if t < t' {
      MulAtLeast(d, t' - t);
    }
  }

  lemma MulAtLeast(d: int, k: int)
    requires d > 0 && k >= 1
    ensures d * k >= d
  {
  }

  lemma ModAdd(a: int, b: int, d: int)
    requires d > 0
    ensures (a + b) % d == (a % d + b % d) % d
  {
    var s := a % d + b % d;
    DivModUnique(a + b, d, a / d + b / d + s / d, s % d);
  }

  lemma ModMul(a: int, c: int, d: int)
    requires d > 0
    ensures (a * c) % d == ((a % d) * c) % d
  {
    var r := (a % d) * c;
    assert a * c == d * ((a / d) * c) + r by {
      assert a == d * (a / d) + a % d;
    }
    DivModUnique(a * c, d, (a / d) * c + r / d, r % d);
  }
}
