/** Hash.py: Thomas Wang's 64-bit and 32-bit integer hashes as written in
    Python, where integers are unbounded and ~, <<, >> and ^ act on them in
    two's complement with infinite sign extension, and the reference hashes
    on fixed-width unsigned words that the Python code stands in for. */
module Hash {
  import opened Arith

  /** 2^64 and 2^32, the moduli of rshift64 and rshift32. */
  const M64: nat := 0x1_0000_0000_0000_0000
  const M32: nat := 0x1_0000_0000

  lemma WordModuli()
    ensures Pow2(64) == M64 && Pow2(32) == M32
  {
    Pow2Literals();
  }

  /** Python's ~k on an int: the two's complement of k, so k and ~k add up
      to -1 and exactly one of them is negative. */
  function Invert(k: int): (r: int)
    ensures k + r == -1 && (r < 0 <==> k >= 0)
  {
    -k - 1
  }

  /** Python's k << n on an int: never overflows, so the n low bits are 0
      and shifting back right by n gives k again. */
  function Shl(k: int, n: nat): (r: int)
    ensures r % Pow2(n) == 0 && r / Pow2(n) == k
  {
    DivModUnique(k * Pow2(n), Pow2(n), k, 0);
    k * Pow2(n)
  }

  function Abs(x: int): nat { if x < 0 then -x else x }

  /** Python's a ^ b on unbounded ints: bit by bit from the lowest, until both
      operands are all zeros (0) or all ones (-1). */
  function Xor(a: int, b: int): (r: int)
    ensures r < 0 <==> (a < 0) != (b < 0)
    decreases Abs(a) + Abs(b)
  {
    if (a == 0 || a == -1) && (b == 0 || b == -1) then
      (if a == b then 0 else -1)
    else
      2 * Xor(a / 2, b / 2) + (if a % 2 == b % 2 then 0 else 1)
  }

  lemma XorUnfold(a: int, b: int)
    ensures Xor(a, b) == 2 * Xor(a / 2, b / 2) + (if a % 2 == b % 2 then 0 else 1)
  {
  }

  lemma DivModTwo(a: int, p: nat)
    requires p >= 1
    ensures (a % (2 * p)) / 2 == (a / 2) % p && (a % (2 * p)) % 2 == a % 2
  {
    var h := a / 2;
    var r := 2 * (h % p) + a % 2;
    assert a == (2 * p) * (h / p) + r;
    DivModUnique(a, 2 * p, h / p, r);
    DivModUnique(r, 2, h % p, a % 2);
  }

  lemma TwiceMod(y: int, e: int, p: nat)
    requires p >= 1 && 0 <= e <= 1
    ensures (2 * y + e) % (2 * p) == 2 * (y % p) + e
  {
    DivModUnique(2 * y + e, 2 * p, y / p, 2 * (y % p) + e);
  }

  /** The low n bits of a ^ b depend only on the low n bits of a and b. */
  lemma {:induction false} XorMod(a: int, b: int, n: nat)
    decreases n
    ensures Xor(a, b) % Pow2(n) == Xor(a % Pow2(n), b % Pow2(n))
  {
    if n > 0 {
      var p := Pow2(n - 1);
      XorMod(a / 2, b / 2, n - 1);
      XorUnfold(a, b);
      var a', b' := a % (2 * p), b % (2 * p);
      assert a' / 2 == (a / 2) % p && a' % 2 == a % 2 by { DivModTwo(a, p); }
      assert b' / 2 == (b / 2) % p && b' % 2 == b % 2 by { DivModTwo(b, p); }
      XorUnfold(a', b');
      TwiceMod(Xor(a / 2, b / 2), if a % 2 == b % 2 then 0 else 1, p);
    }
  }

  /** The xor of two n-bit words is an n-bit word. */
  lemma {:induction false} XorBound(a: int, b: int, n: nat)
    requires 0 <= a < Pow2(n) && 0 <= b < Pow2(n)
    ensures 0 <= Xor(a, b) < Pow2(n)
  {
    XorUnfold(a, b);
    if n > 0 {
      XorBound(a / 2, b / 2, n - 1);
    }
  }

  /** rshift64(val, n): reduce val to an unsigned 64-bit word, then shift
      it right logically, as Java's >>> does. */
  function RShift64(val: int, n: nat): (r: int)
    ensures 0 <= r <= val % M64
  {
    DivAtMost(val % M64, Pow2(n));
    (val % M64) / Pow2(n)
  }

  /** rshift32(val, n): the same on 32-bit words. */
  function RShift32(val: int, n: nat): (r: int)
    ensures 0 <= r <= val % M32
  {
    DivAtMost(val % M32, Pow2(n));
    (val % M32) / Pow2(n)
  }

  lemma DivBelow(a: int, c: nat, d: nat)
    requires d >= 1 && 0 <= a < c * d
    ensures 0 <= a / d < c
  {
    if a / d >= c {
      assert d * (a / d) >= d * c by { MulMono(d, c, a / d); }
    }
  }

  lemma DivAtMost(a: nat, d: nat)
    requires d >= 1
    ensures 0 <= a / d <= a
  {
    var t := a / d;
    assert a == d * t + a % d;
    assert d * t == t + (d - 1) * t;
    assert (d - 1) * t >= 0 by { MulMono(d - 1, 0, t); }
  }

  lemma MulMono(d: nat, x: int, y: int)
    requires x <= y
    ensures d * x <= d * y
  {
  }

  /** Shifting a 64-bit word right by n leaves a (64-n)-bit word. */
  lemma RShift64Range(val: int, n: nat)
    requires n <= 64
    ensures 0 <= RShift64(val, n) < Pow2(64 - n)
  {
    WordModuli();
    Pow2Add(64 - n, n);
    DivBelow(val % M64, Pow2(64 - n), Pow2(n));
  }

  /** Shifting a 32-bit word right by n leaves a (32-n)-bit word. */
  lemma RShift32Range(val: int, n: nat)
    requires n <= 32
    ensures 0 <= RShift32(val, n) < Pow2(32 - n)
  {
    WordModuli();
    Pow2Add(32 - n, n);
    DivBelow(val % M32, Pow2(32 - n), Pow2(n));
  }


  /** rshift64 only sees val modulo 2^64, whatever its sign or size. */
  lemma RShift64Periodic(val: int, t: int, n: nat)
    ensures RShift64(val + t * M64, n) == RShift64(val, n)
  {
    AddMultiple(val, M64, t);
  }

  /** rshift32 only sees val modulo 2^32. */
  lemma RShift32Periodic(val: int, t: int, n: nat)
    ensures RShift32(val + t * M32, n) == RShift32(val, n)
  {
    AddMultiple(val, M32, t);
  }

  /** Adding a multiple of d does not change the remainder. */
  lemma AddMultiple(x: int, d: int, k: int)
    requires d > 0
    ensures (x + d * k) % d == x % d && (x + k * d) % d == x % d
  {
    assert x + d * k == d * (x / d + k) + x % d;
    DivModUnique(x + d * k, d, x / d + k, x % d);
  }

  /** Reducing one summand first does not change the remainder of a sum. */
  lemma ModInner(x: int, y: int, d: int)
    requires d > 0
    ensures (x + y % d) % d == (x + y) % d
  {
    assert x + y == (x + y % d) + d * (y / d);
    AddMultiple(x + y % d, d, y / d);
  }

  /** The lines of hash64shift and hash32shift, each of which rebinds key:
      NotPlusShl(s) is (~key) + (key << s), XorShr(n) is key ^ rshift(key, n),
      PlusShl(s) is key + (key << s), PlusShls(s, t) is
      (key + (key << s)) + (key << t), and Wrap is the final % 2^b. */
  datatype Line =
    | NotPlusShl(s: nat)
    | XorShr(n: nat)
    | PlusShl(s: nat)
    | PlusShls(s: nat, t: nat)
    | Wrap

  /** hash64shift, Hash.py lines 29-35, one entry per operation. */
  const Hash64Lines: seq<Line> :=
    [NotPlusShl(21), XorShr(24), PlusShls(3, 8), XorShr(14),
     PlusShls(2, 4), XorShr(28), PlusShl(31), Wrap]

  /** hash32shift, Hash.py lines 45-50, one entry per operation. */
  const Hash32Lines: seq<Line> :=
    [NotPlusShl(15), XorShr(12), PlusShl(2), XorShr(4),
     PlusShls(3, 11), Wrap, XorShr(16)]

  /** rshift on a word width of b bits: rshift64 is b = 64, rshift32 b = 32. */
  function RShift(val: int, n: nat, b: nat): int
  {
    (val % Pow2(b)) / Pow2(n)
  }

  lemma RShiftWidths(val: int, n: nat)
    ensures RShift(val, n, 64) == RShift64(val, n)
    ensures RShift(val, n, 32) == RShift32(val, n)
  {
    WordModuli();
  }

  /** One line on Python integers, with rshift at width b. */
  function PyStep(line: Line, k: int, b: nat): int
  {
    match line
    case NotPlusShl(s) => Invert(k) + Shl(k, s)
    case XorShr(n) => Xor(k, RShift(k, n, b))
    case PlusShl(s) => k + Shl(k, s)
    case PlusShls(s, t) => (k + Shl(k, s)) + Shl(k, t)
    case Wrap => k % Pow2(b)
  }

  /** The lines run in order on Python integers. */
  function RunPy(lines: seq<Line>, k: int, b: nat): int
    decreases |lines|
  {
    if |lines| == 0 then k else RunPy(lines[1..], PyStep(lines[0], k, b), b)
  }

  /** One line as Wang states it on an unsigned b-bit word w: ~, << and +
      wrap at 2^b and >>> is the logical shift w / 2^n. The Python Wrap has
      no counterpart there: a word is left as it is. */
  function WordStep(line: Line, w: int, b: nat): int
  {
    var W := Pow2(b);
    match line
    case NotPlusShl(s) => ((W - 1 - w) + (w * Pow2(s)) % W) % W
    case XorShr(n) => Xor(w, w / Pow2(n))
    case PlusShl(s) => (w + (w * Pow2(s)) % W) % W
    case PlusShls(s, t) => ((w + (w * Pow2(s)) % W) % W + (w * Pow2(t)) % W) % W
    case Wrap => w
  }

  /** The lines run in order on b-bit words. */
  function RunWord(lines: seq<Line>, w: int, b: nat): int
    decreases |lines|
  {
    if |lines| == 0 then w else RunWord(lines[1..], WordStep(lines[0], w, b), b)
  }

  /** hash64shift(key) on a Python integer: for every key, negative and
      oversized ones included, an unsigned 64-bit word. */
  function HashPy64(key: int): (h: int)
    ensures 0 <= h < M64
  {
    WordModuli();
    RunExact(Hash64Lines, 7, key, 64);
    RunWordRange(Hash64Lines, key % M64, 64);
    RunPy(Hash64Lines, key, 64)
  }

  /** hash32shift(key) on a Python integer: an unsigned 32-bit word. */
  function HashPy32(key: int): (h: int)
    ensures 0 <= h < M32
  {
    WordModuli();
    RunExact(Hash32Lines, 5, key, 32);
    RunWordRange(Hash32Lines, key % M32, 32);
    RunPy(Hash32Lines, key, 32)
  }

  /** Wang's 64-bit hash on an unsigned 64-bit word. */
  function Wang64(w: int): (h: int)
    requires 0 <= w < M64
    ensures 0 <= h < M64
  {
    WordModuli();
    RunWordRange(Hash64Lines, w, 64);
    RunWord(Hash64Lines, w, 64)
  }

  /** Wang's 32-bit hash on an unsigned 32-bit word. */
  function Wang32(w: int): (h: int)
    requires 0 <= w < M32
    ensures 0 <= h < M32
  {
    WordModuli();
    RunWordRange(Hash32Lines, w, 32);
    RunWord(Hash32Lines, w, 32)
  }

  /** The identities in the comments of hash64shift and hash32shift. */
  lemma CommentedIdentities(key: int)
    ensures Invert(key) + Shl(key, 21) == Shl(key, 21) - key - 1
    ensures (key + Shl(key, 3)) + Shl(key, 8) == key * 265
    ensures (key + Shl(key, 2)) + Shl(key, 4) == key * 21
    ensures Invert(key) + Shl(key, 15) == Shl(key, 15) - key - 1
    ensures key + Shl(key, 2) == key * 5
    ensures (key + Shl(key, 3)) + Shl(key, 11) == key * 2057
  {
    Pow2Literals();
  }

  /** The xorshift lines of the two hashes call rshift64 and rshift32. */
  lemma XorShrCallsRShift(k: int, n: nat)
    ensures PyStep(XorShr(n), k, 64) == Xor(k, RShift64(k, n))
    ensures PyStep(XorShr(n), k, 32) == Xor(k, RShift32(k, n))
  {
    RShiftWidths(k, n);
  }

  /** The first line, reduced modulo d, only sees key modulo d. */
  lemma ShiftLineMod(key: int, c: int, d: int)
    requires d > 0
    ensures (-key - 1 + key * c) % d == ((key % d) * c - key % d - 1) % d
  {
    var t, w := key / d, key % d;
    assert key * c == (d * t) * c + w * c by {
      assert key == d * t + w;
    }
    var x := w * c - w - 1;
    assert -key - 1 + key * c == x + d * (t * c - t) by {
      assert (d * t) * c == d * (t * c);
      assert d * (t * c - t) == d * (t * c) - d * t;
    }
    AddMultiple(x, d, t * c - t);
  }

  /** Multiplying by c commutes with reduction modulo d. */
  lemma MulStep(k: int, c: int, d: nat)
    requires d >= 1
    ensures (k * c) % d == ((k % d) * c) % d
  {
    ModMul(k, c, d);
  }

  /** Python's k ^ rshift(k, n), reduced modulo 2^b, is w ^ (w >>> n) on
      the word w = k mod 2^b. */
  lemma XorShiftStep(k: int, n: nat, b: nat)
    ensures Xor(k, (k % Pow2(b)) / Pow2(n)) % Pow2(b)
      == Xor(k % Pow2(b), (k % Pow2(b)) / Pow2(n))
  {
    var w := k % Pow2(b);
    XorMod(k, w / Pow2(n), b);
    DivAtMost(w, Pow2(n));
    DivModUnique(w / Pow2(n), Pow2(b), 0, w / Pow2(n));
  }

  /** Every line maps a b-bit word to a b-bit word. */
  lemma WordStepRange(line: Line, w: int, b: nat)
    requires 0 <= w < Pow2(b)
    ensures 0 <= WordStep(line, w, b) < Pow2(b)
  {
    if line.XorShr? {
      DivAtMost(w, Pow2(line.n));
      XorBound(w, w / Pow2(line.n), b);
    }
  }

  /** (~key) + (key << s) against ((~w) + (w << s)) in wrapping words,
      for c = 2^s and W = 2^b. */
  lemma NotPlusShlCongruent(k: int, c: int, W: int)
    requires W > 0
    ensures var w := k % W;
      ((W - 1 - w) + (w * c) % W) % W == (-k - 1 + k * c) % W
  {
    var w := k % W;
    ModInner(W - 1 - w, w * c, W);
    AddMultiple(w * c - w - 1, W, 1);
    ShiftLineMod(k, c, W);
  }

  /** key + (key << s) against the wrapping w + (w << s). */
  lemma PlusShlCongruent(k: int, c: int, W: int)
    requires W > 0
    ensures var w := k % W;
      (w + (w * c) % W) % W == (k + k * c) % W
  {
    var w := k % W;
    ModInner(w, w * c, W);
    assert w + w * c == w * (1 + c);
    MulStep(k, 1 + c, W);
    assert k * (1 + c) == k + k * c;
  }

  /** (key + (key << s)) + (key << t) against its wrapping counterpart. */
  lemma PlusShlsCongruent(k: int, c: int, e: int, W: int)
    requires W > 0
    ensures var w := k % W;
      ((w + (w * c) % W) % W + (w * e) % W) % W == (k + k * c + k * e) % W
  {
    var w := k % W;
    ModAdd(w + (w * c) % W, w * e, W);
    ModInner(w + w * e, w * c, W);
    assert w + w * c + w * e == w * (1 + c + e);
    MulStep(k, 1 + c + e, W);
    assert k * (1 + c + e) == k + k * c + k * e;
  }

  /** Each line on Python integers, reduced modulo 2^b, is the same line on
      the word k mod 2^b: only the low b bits of key ever matter. */
  lemma StepCongruent(line: Line, k: int, b: nat)
    ensures PyStep(line, k, b) % Pow2(b) == WordStep(line, k % Pow2(b), b)
  {
    match line
    case NotPlusShl(s) => NotPlusShlStep(s, k, b);
    case XorShr(n) => XorShrStep(n, k, b);
    case PlusShl(s) => PlusShlStep(s, k, b);
    case PlusShls(s, t) => PlusShlsStep(s, t, k, b);
    case Wrap => WrapStep(k, b);
  }

  lemma NotPlusShlStep(s: nat, k: int, b: nat)
    ensures PyStep(NotPlusShl(s), k, b) % Pow2(b) == WordStep(NotPlusShl(s), k % Pow2(b), b)
  {
    NotPlusShlCongruent(k, Pow2(s), Pow2(b));
  }

  lemma XorShrStep(n: nat, k: int, b: nat)
    ensures PyStep(XorShr(n), k, b) % Pow2(b) == WordStep(XorShr(n), k % Pow2(b), b)
  {
    XorShiftStep(k, n, b);
  }

  lemma PlusShlStep(s: nat, k: int, b: nat)
    ensures PyStep(PlusShl(s), k, b) % Pow2(b) == WordStep(PlusShl(s), k % Pow2(b), b)
  {
    PlusShlCongruent(k, Pow2(s), Pow2(b));
  }

  lemma PlusShlsStep(s: nat, t: nat, k: int, b: nat)
    ensures PyStep(PlusShls(s, t), k, b) % Pow2(b) == WordStep(PlusShls(s, t), k % Pow2(b), b)
  {
    PlusShlsCongruent(k, Pow2(s), Pow2(t), Pow2(b));
  }

  lemma WrapStep(k: int, b: nat)
    ensures PyStep(Wrap, k, b) % Pow2(b) == WordStep(Wrap, k % Pow2(b), b)
  {
    DivModUnique(k % Pow2(b), Pow2(b), 0, k % Pow2(b));
  }

  /** Running lines from a b-bit word stays within b-bit words. */
  lemma {:induction false} RunWordRange(lines: seq<Line>, w: int, b: nat)
    requires 0 <= w < Pow2(b)
    ensures 0 <= RunWord(lines, w, b) < Pow2(b)
    decreases |lines|
  {
    if |lines| > 0 {
      WordStepRange(lines[0], w, b);
      RunWordRange(lines[1..], WordStep(lines[0], w, b), b);
    }
  }

  /** On a word, xorshift lines compute the same on Python integers as on
      words. */
  lemma {:induction false} RunXorShrs(lines: seq<Line>, w: int, b: nat)
    requires 0 <= w < Pow2(b)
    requires forall i :: 0 <= i < |lines| ==> lines[i].XorShr?
    ensures RunPy(lines, w, b) == RunWord(lines, w, b)
    decreases |lines|
  {
    if |lines| > 0 {
      var w' := WordStep(lines[0], w, b);
      DivModUnique(w, Pow2(b), 0, w);
      assert PyStep(lines[0], w, b) == w';
      WordStepRange(lines[0], w, b);
      RunXorShrs(lines[1..], w', b);
    }
  }

  /** A run whose last Wrap (at j) is followed only by xorshift lines gives
      on any Python integer exactly the word-level run on k mod 2^b. */
  lemma {:induction false} RunExact(lines: seq<Line>, j: nat, k: int, b: nat)
    requires j < |lines| && lines[j] == Wrap
    requires forall i :: j < i < |lines| ==> lines[i].XorShr?
    ensures RunPy(lines, k, b) == RunWord(lines, k % Pow2(b), b)
    decreases j
  {
    var W := Pow2(b);
    if j == 0 {
      DivModUnique(k % W, W, 0, k % W);
      RunXorShrs(lines[1..], k % W, b);
    } else {
      var k', w' := PyStep(lines[0], k, b), WordStep(lines[0], k % W, b);
      assert k' % W == w' by { StepCongruent(lines[0], k, b); }
      RunExact(lines[1..], j - 1, k', b);
      assert RunPy(lines, k, b) == RunPy(lines[1..], k', b);
      assert RunWord(lines, k % W, b) == RunWord(lines[1..], w', b);
    }
  }

  /** hash64shift is Wang's 64-bit hash of key mod 2^64, for every Python
      integer key, negative and oversized ones included. */
  lemma HashPy64IsWang64(key: int)
    ensures HashPy64(key) == Wang64(key % M64)
  {
    WordModuli();
    RunExact(Hash64Lines, 7, key, 64);
  }

  /** hash32shift is Wang's 32-bit hash of key mod 2^32. */
  lemma HashPy32IsWang32(key: int)
    ensures HashPy32(key) == Wang32(key % M32)
  {
    WordModuli();
    RunExact(Hash32Lines, 5, key, 32);
  }

  /** Wang's 64-bit hash as he writes it, on an unsigned 64-bit word where
      every product and sum wraps at 2^64 and >>> is a logical shift. */
  function WangShift64(key: int): (h: int)
    requires 0 <= key < M64
  {
    var k1 := (key * 0x20_0000 - key - 1) % M64;
    var k2 := Xor(k1, k1 / 0x100_0000);
    var k3 := (k2 * 265) % M64;
    var k4 := Xor(k3, k3 / 0x4000);
    var k5 := (k4 * 21) % M64;
    var k6 := Xor(k5, k5 / 0x1000_0000);
    (k6 * 0x8000_0001) % M64
  }

  /** Wang's 32-bit hash as he writes it, wrapping at 2^32. */
  function WangShift32(key: int): (h: int)
    requires 0 <= key < M32
  {
    var k1 := (key * 0x8000 - key - 1) % M32;
    var k2 := Xor(k1, k1 / 0x1000);
    var k3 := (k2 * 5) % M32;
    var k4 := Xor(k3, k3 / 0x10);
    var k5 := (k4 * 2057) % M32;
    Xor(k5, k5 / 0x1_0000)
  }

  /** The word-level lines in the multiplicative form of Wang's comments,
      for c = 2^s, e = 2^t and W = 2^b. */
  lemma NotPlusShlMul(w: int, c: int, W: int)
    requires 0 <= w < W
    ensures ((W - 1 - w) + (w * c) % W) % W == (w * c - w - 1) % W
  {
    DivModUnique(w, W, 0, w);
    NotPlusShlCongruent(w, c, W);
  }

  lemma PlusShlMul(w: int, c: int, W: int)
    requires 0 <= w < W
    ensures (w + (w * c) % W) % W == (w * (1 + c)) % W
  {
    DivModUnique(w, W, 0, w);
    PlusShlCongruent(w, c, W);
    assert w + w * c == w * (1 + c);
  }

  lemma PlusShlsMul(w: int, c: int, e: int, W: int)
    requires 0 <= w < W
    ensures ((w + (w * c) % W) % W + (w * e) % W) % W == (w * (1 + c + e)) % W
  {
    DivModUnique(w, W, 0, w);
    PlusShlsCongruent(w, c, e, W);
    assert w + w * c + w * e == w * (1 + c + e);
  }

  /** Each kind of line as one multiplication in b-bit words. */
  lemma NotPlusShlWord(w: int, s: nat, b: nat, m: int)
    requires 0 <= w < Pow2(b) && m == Pow2(s)
    ensures WordStep(NotPlusShl(s), w, b) == (w * m - w - 1) % Pow2(b)
  {
    NotPlusShlMul(w, m, Pow2(b));
  }

  lemma PlusShlWord(w: int, s: nat, b: nat, m: int)
    requires 0 <= w < Pow2(b) && m == 1 + Pow2(s)
    ensures WordStep(PlusShl(s), w, b) == (w * m) % Pow2(b)
  {
    PlusShlMul(w, Pow2(s), Pow2(b));
  }

  lemma PlusShlsWord(w: int, s: nat, t: nat, b: nat, m: int)
    requires 0 <= w < Pow2(b) && m == 1 + Pow2(s) + Pow2(t)
    ensures WordStep(PlusShls(s, t), w, b) == (w * m) % Pow2(b)
  {
    var c, e, W := Pow2(s), Pow2(t), Pow2(b);
    PlusShlsMul(w, c, e, W);
    assert 1 + c + e == m;
  }

  lemma XorShrWord(w: int, n: nat, b: nat, d: int)
    requires 0 <= w < Pow2(b) && d == Pow2(n)
    ensures WordStep(XorShr(n), w, b) == Xor(w, w / d)
    ensures 0 <= Xor(w, w / d) < Pow2(b)
  {
    WordStepRange(XorShr(n), w, b);
  }

  /** The run of lines i, i+1, ... of a program, by position. */
  function RunWordFrom(lines: seq<Line>, i: nat, w: int, b: nat): int
    decreases |lines| - i
  {
    if i >= |lines| then w else RunWordFrom(lines, i + 1, WordStep(lines[i], w, b), b)
  }

  lemma {:induction false} RunWordAt(lines: seq<Line>, i: nat, w: int, b: nat)
    requires i <= |lines|
    ensures RunWord(lines[i..], w, b) == RunWordFrom(lines, i, w, b)
    decreases |lines| - i
  {
    if i < |lines| {
      assert lines[i..][1..] == lines[i + 1..];
      RunWordAt(lines, i + 1, WordStep(lines[i], w, b), b);
    }
  }

  /** The 64-bit lines run one after the other. */
  lemma Run64Steps(w: int)
    ensures RunWord(Hash64Lines, w, 64) ==
      WordStep(PlusShl(31), WordStep(XorShr(28), WordStep(PlusShls(2, 4),
        WordStep(XorShr(14), WordStep(PlusShls(3, 8), WordStep(XorShr(24),
          WordStep(NotPlusShl(21), w, 64), 64), 64), 64), 64), 64), 64)
  {
    var l := Hash64Lines;
    RunWordAt(l, 0, w, 64);
    assert l[0..] == l;
  }

  /** WangShift64 unfolded, given its intermediate words. */
  lemma WangShift64Lets(w: int, k1: int, k2: int, k3: int, k4: int, k5: int, k6: int)
    requires 0 <= w < M64
    requires k1 == (w * 0x20_0000 - w - 1) % M64 && k2 == Xor(k1, k1 / 0x100_0000)
    requires k3 == (k2 * 265) % M64 && k4 == Xor(k3, k3 / 0x4000)
    requires k5 == (k4 * 21) % M64 && k6 == Xor(k5, k5 / 0x1000_0000)
    ensures WangShift64(w) == (k6 * 0x8000_0001) % M64
  {
  }

  /** Lines 1-2 of the 64-bit hash: (~key) + (key << 21), then key ^ (key >>> 24). */
  lemma Wang64Front(w: int)
    requires 0 <= w < M64
    ensures var k1 := (w * 0x20_0000 - w - 1) % M64;
      var k2 := Xor(k1, k1 / 0x100_0000);
      && WordStep(XorShr(24), WordStep(NotPlusShl(21), w, 64), 64) == k2
      && 0 <= k2 < M64
  {
    WordModuli();
    Pow2Literals();
    NotPlusShlWord(w, 21, 64, 0x20_0000);
    var k1 := (w * 0x20_0000 - w - 1) % M64;
    assert WordStep(NotPlusShl(21), w, 64) == k1;
    XorShrWord(k1, 24, 64, 0x100_0000);
  }

  /** Lines 3-4 of the 64-bit hash: key * 265, then key ^ (key >>> 14). */
  lemma Wang64Middle(k2: int)
    requires 0 <= k2 < M64
    ensures var k3 := (k2 * 265) % M64;
      var k4 := Xor(k3, k3 / 0x4000);
      && WordStep(XorShr(14), WordStep(PlusShls(3, 8), k2, 64), 64) == k4
      && 0 <= k4 < M64
  {
    WordModuli();
    Pow2Literals();
    PlusShlsWord(k2, 3, 8, 64, 265);
    var k3 := (k2 * 265) % M64;
    XorShrWord(k3, 14, 64, 0x4000);
  }

  /** Lines 5-7 of the 64-bit hash: key * 21, key ^ (key >>> 28), key + (key << 31). */
  lemma Wang64Back(k4: int)
    requires 0 <= k4 < M64
    ensures var k5 := (k4 * 21) % M64;
      var k6 := Xor(k5, k5 / 0x1000_0000);
      WordStep(PlusShl(31), WordStep(XorShr(28), WordStep(PlusShls(2, 4), k4, 64), 64), 64)
        == (k6 * 0x8000_0001) % M64
  {
    WordModuli();
    Pow2Literals();
    PlusShlsWord(k4, 2, 4, 64, 21);
    var k5 := (k4 * 21) % M64;
    XorShrWord(k5, 28, 64, 0x1000_0000);
    var k6 := Xor(k5, k5 / 0x1000_0000);
    PlusShlWord(k6, 31, 64, 0x8000_0001);
  }

  /** The line-by-line reference agrees with Wang's straight-line 64-bit hash. */
  lemma Wang64IsWangShift64(w: int)
    requires 0 <= w < M64
    ensures Wang64(w) == WangShift64(w)
  {
    Run64Steps(w);
    Wang64Front(w);
    var k1 := (w * 0x20_0000 - w - 1) % M64;
    var k2 := Xor(k1, k1 / 0x100_0000);
    Wang64Middle(k2);
    var k3 := (k2 * 265) % M64;
    var k4 := Xor(k3, k3 / 0x4000);
    Wang64Back(k4);
    var k5 := (k4 * 21) % M64;
    var k6 := Xor(k5, k5 / 0x1000_0000);
    WangShift64Lets(w, k1, k2, k3, k4, k5, k6);
  }

  /** The 32-bit lines run one after the other. */
  lemma Run32Steps(w: int)
    ensures RunWord(Hash32Lines, w, 32) ==
      WordStep(XorShr(16), WordStep(PlusShls(3, 11), WordStep(XorShr(4),
        WordStep(PlusShl(2), WordStep(XorShr(12),
          WordStep(NotPlusShl(15), w, 32), 32), 32), 32), 32), 32)
  {
    var l := Hash32Lines;
    RunWordAt(l, 0, w, 32);
    assert l[0..] == l;
  }

  /** WangShift32 unfolded, given its intermediate words. */
  lemma WangShift32Lets(w: int, k1: int, k2: int, k3: int, k4: int, k5: int)
    requires 0 <= w < M32
    requires k1 == (w * 0x8000 - w - 1) % M32 && k2 == Xor(k1, k1 / 0x1000)
    requires k3 == (k2 * 5) % M32 && k4 == Xor(k3, k3 / 0x10)
    requires k5 == (k4 * 2057) % M32
    ensures WangShift32(w) == Xor(k5, k5 / 0x1_0000)
  {
  }

  /** Lines 1-2 of the 32-bit hash: ~key + (key << 15), then key ^ (key >>> 12). */
  lemma Wang32Front(w: int)
    requires 0 <= w < M32
    ensures var k1 := (w * 0x8000 - w - 1) % M32;
      var k2 := Xor(k1, k1 / 0x1000);
      && WordStep(XorShr(12), WordStep(NotPlusShl(15), w, 32), 32) == k2
      && 0 <= k2 < M32
  {
    WordModuli();
    Pow2Literals();
    NotPlusShlWord(w, 15, 32, 0x8000);
    var k1 := (w * 0x8000 - w - 1) % M32;
    assert WordStep(NotPlusShl(15), w, 32) == k1;
    XorShrWord(k1, 12, 32, 0x1000);
  }

  /** Lines 3-4 of the 32-bit hash: key + (key << 2), then key ^ (key >>> 4). */
  lemma Wang32Middle(k2: int)
    requires 0 <= k2 < M32
    ensures var k3 := (k2 * 5) % M32;
      var k4 := Xor(k3, k3 / 0x10);
      && WordStep(XorShr(4), WordStep(PlusShl(2), k2, 32), 32) == k4
      && 0 <= k4 < M32
  {
    WordModuli();
    Pow2Literals();
    PlusShlWord(k2, 2, 32, 5);
    var k3 := (k2 * 5) % M32;
    XorShrWord(k3, 4, 32, 0x10);
  }

  /** Lines 5-6 of the 32-bit hash: key * 2057, then key ^ (key >>> 16). */
  lemma Wang32Back(k4: int)
    requires 0 <= k4 < M32
    ensures var k5 := (k4 * 2057) % M32;
      WordStep(XorShr(16), WordStep(PlusShls(3, 11), k4, 32), 32) == Xor(k5, k5 / 0x1_0000)
  {
    WordModuli();
    Pow2Literals();
    PlusShlsWord(k4, 3, 11, 32, 2057);
    var k5 := (k4 * 2057) % M32;
    XorShrWord(k5, 16, 32, 0x1_0000);
  }

  /** The line-by-line reference agrees with Wang's straight-line 32-bit hash. */
  lemma Wang32IsWangShift32(w: int)
    requires 0 <= w < M32
    ensures Wang32(w) == WangShift32(w)
  {
    Run32Steps(w);
    Wang32Front(w);
    var k1 := (w * 0x8000 - w - 1) % M32;
    var k2 := Xor(k1, k1 / 0x1000);
    Wang32Middle(k2);
    var k3 := (k2 * 5) % M32;
    var k4 := Xor(k3, k3 / 0x10);
    Wang32Back(k4);
    var k5 := (k4 * 2057) % M32;
    WangShift32Lets(w, k1, k2, k3, k4, k5);
  }
}
