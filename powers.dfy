/**
  Exact powers of two and the binary exponent of a positive real.

  The codec works with dyadic rationals only, so every quantity it needs is a
  power of two times an integer. `Log2Floor` stands in for
  `floor(log2(x))`: it is the unique integer `e` with `2^e <= x < 2^(e+1)`.
 */
module Powers {

  /** 2^n as a natural number (a left shift of 1 by n). */
  function Pow2(n: nat): (r: nat)
    ensures r >= 1
  {
    if n == 0 then 1 else 2 * Pow2(n - 1)
  }

  /** The powers the format table and the single-precision patterns mention, built from small ones. */
  lemma {:induction false} Pow2Values()
    ensures Pow2(4) == 16 && Pow2(5) == 32 && Pow2(7) == 128 && Pow2(8) == 256
    ensures Pow2(10) == 1024 && Pow2(14) == 16384 && Pow2(15) == 32768
    ensures Pow2(22) == 4194304 && Pow2(23) == 8388608 && Pow2(31) == 2147483648
    ensures Pow2(32) == 4294967296
  {
    assert Pow2(8) == 256;
    assert Pow2(7) == 128;
    Pow2Add(7, 7);
    Pow2Add(7, 8);
    Pow2Add(14, 8);
    Pow2Add(15, 8);
    Pow2Add(23, 8);
    Pow2Add(31, 1);
  }

  /** 2^e as a real, for any integer exponent: doubling above 0, halving below. */
  function Pow2R(e: int): real
    decreases if e < 0 then -e else e
  {
    if e == 0 then 1.0 else if e > 0 then 2.0 * Pow2R(e - 1) else 0.5 * Pow2R(e + 1)
  }

  lemma {:induction false} Pow2RPositive(e: int)
    ensures Pow2R(e) > 0.0
    decreases if e < 0 then -e else e
  {
    if e > 0 {
      Pow2RPositive(e - 1);
    } else if e < 0 {
      Pow2RPositive(e + 1);
    }
  }

  lemma {:induction false} Pow2RStep(e: int)
    ensures Pow2R(e + 1) == 2.0 * Pow2R(e)
  {
  }

  lemma {:induction false} Pow2Add(a: nat, b: nat)
    ensures Pow2(a + b) == Pow2(a) * Pow2(b)
  {
    if a > 0 {
      Pow2Add(a - 1, b);
      assert Pow2(a + b) == 2 * Pow2(a - 1 + b);
    }
  }

  lemma {:induction false} Pow2Monotone(a: nat, b: nat)
    requires a < b
    ensures 2 * Pow2(a) <= Pow2(b)
  {
    if b > a + 1 {
      Pow2Monotone(a, b - 1);
    }
  }

  /** 2^(a+b) = 2^a * 2^b over all integer exponents. */
  lemma {:induction false} Pow2RAdd(a: int, b: int)
    ensures Pow2R(a + b) == Pow2R(a) * Pow2R(b)
  {
    if a >= 0 {
      Pow2RAddUp(a, b);
    } else {
      Pow2RAddDown(-a, b);
    }
  }

  lemma {:induction false} Pow2RAddUp(n: nat, b: int)
    ensures Pow2R(n + b) == Pow2R(n) * Pow2R(b)
  {
    if n > 0 {
      Pow2RAddUp(n - 1, b);
      Pow2RStep(n - 1 + b);
      Pow2RStep(n - 1);
    }
  }

  lemma {:induction false} Pow2RAddDown(n: nat, b: int)
    ensures Pow2R(b - n) == Pow2R(-(n as int)) * Pow2R(b)
  {
    if n > 0 {
      Pow2RAddDown(n - 1, b);
      Pow2RStep(b - n);
      Pow2RStep(-(n as int));
    }
  }

  /** The real power at a natural exponent is the natural power. */
  lemma {:induction false} Pow2RNat(n: nat)
    ensures Pow2R(n) == Pow2(n) as real
  {
    if n > 0 {
      Pow2RNat(n - 1);
    }
  }

  /** 2^y = 2^k · 2^(y-k). */
  lemma {:induction false} Pow2RFactor(k: int, y: int)
    ensures Pow2R(y) == Pow2R(k) * Pow2R(y - k)
  {
    Pow2RAdd(k, y - k);
  }

  /** 2^y = 2^k · 2^(y-k), the first factor a natural number. */
  lemma {:induction false} Pow2RSplit(k: nat, y: int)
    ensures Pow2R(y) == Pow2(k) as real * Pow2R(y - k)
  {
    Pow2RAdd(k, y - k);
    Pow2RNat(k);
  }

  // Field facts over plain reals, kept apart so that the solver sees them
  // without the definitions of the powers.

  lemma {:induction false} DivNonNeg(a: real, b: real)
    requires a >= 0.0 && b > 0.0
    ensures a / b >= 0.0
  {
  }

  lemma {:induction false} DivPos(a: real, b: real)
    requires a > 0.0 && b > 0.0
    ensures a / b > 0.0
  {
  }

  lemma {:induction false} DivMul(a: real, p: real)
    requires p > 0.0
    ensures a / p * p == a
  {
  }

  lemma {:induction false} MulLe(a: real, b: real, p: real)
    requires p > 0.0 && a <= b
    ensures a * p <= b * p
  {
  }

  lemma {:induction false} MulLt(a: real, b: real, p: real)
    requires p > 0.0 && a < b
    ensures a * p < b * p
  {
  }

  lemma {:induction false} MulLeIff(a: real, b: real, p: real)
    requires p > 0.0
    ensures a <= b <==> a * p <= b * p
  {
  }

  lemma {:induction false} DivSub(a: real, b: real, p: real)
    requires p > 0.0
    ensures (a - b) / p == a / p - b / p
  {
  }

  lemma {:induction false} DivSelf(p: real)
    requires p > 0.0
    ensures p / p == 1.0 && (2.0 * p) / p == 2.0
  {
  }

  /** p <= x < 2p gives 1 <= x / p < 2. */
  lemma {:induction false} QuotientBounds(x: real, p: real)
    requires p > 0.0 && p <= x < 2.0 * p
    ensures 1.0 <= x / p < 2.0
  {
    DivSub(x, p, p);
    DivSub(2.0 * p, x, p);
    DivSelf(p);
    DivNonNeg(x - p, p);
    DivNonNeg(2.0 * p - x, p);
    assert x / p != 2.0;
  }

  lemma {:induction false} Pow2RNeg(e: int)
    ensures Pow2R(-e) * Pow2R(e) == 1.0
  {
    Pow2RAdd(-e, e);
  }


  lemma {:induction false} Pow2RMonotone(a: int, b: int)
    requires a < b
    ensures Pow2R(a) < Pow2R(b)
    decreases b - a
  {
    Pow2RStep(a);
    Pow2RPositive(a);
    if b > a + 1 {
      Pow2RMonotone(a + 1, b);
    }
  }

  lemma {:induction false} Pow2RLe(a: int, b: int)
    requires a <= b
    ensures Pow2R(a) <= Pow2R(b)
  {
    if a < b {
      Pow2RMonotone(a, b);
    }
  }

  /** floor(log2(x)) for x >= 1. */
  function Log2FloorAbove(x: real): (k: nat)
    requires x >= 1.0
    ensures Pow2R(k) <= x < Pow2R(k + 1)
    decreases x.Floor
  {
    if x < 2.0 then 0
    else
      assert (x / 2.0).Floor < x.Floor;
      var k' := Log2FloorAbove(x / 2.0);
      Pow2RStep(k');
      Pow2RStep(k' + 1);
      k' + 1
  }

  /** -floor(log2(x)) for 0 < x < 1. */
  function Log2FloorBelow(x: real): (k: nat)
    requires 0.0 < x < 1.0
    ensures k >= 1
    ensures Pow2R(-(k as int)) <= x < Pow2R(1 - k)
    decreases (1.0 / x).Floor
  {
    if x >= 0.5 then
      Pow2RStep(-1);
      1
    else
      assert (1.0 / (2.0 * x)).Floor < (1.0 / x).Floor by {
        assert 1.0 / (2.0 * x) == (1.0 / x) / 2.0;
        assert 1.0 / x > 2.0;
      }
      var k' := Log2FloorBelow(2.0 * x);
      Pow2RStep(-(k' as int) - 1);
      Pow2RStep(-(k' as int));
      k' + 1
  }

  /** The binary exponent of x: 2^e <= x < 2^(e+1). */
  function Log2Floor(x: real): (e: int)
    requires x > 0.0
    ensures Pow2R(e) <= x < Pow2R(e + 1)
  {
    if x >= 1.0 then Log2FloorAbove(x) else -(Log2FloorBelow(x) as int)
  }

  /** The bracketing exponent is unique, so any bracket names Log2Floor. */
  lemma {:induction false} Log2FloorUnique(x: real, e: int)
    requires Pow2R(e) <= x < Pow2R(e + 1)
    ensures Log2Floor(x) == e
  {
    var f := Log2Floor(x);
    if f < e {
      Pow2RLe(f + 1, e);
    } else if f > e {
      Pow2RLe(e + 1, f);
    }
  }

  /** A positive x below 2^k has binary exponent below k. */
  lemma {:induction false} Log2FloorBelowPower(x: real, k: int)
    requires 0.0 < x < Pow2R(k)
    ensures Log2Floor(x) < k
  {
    if Log2Floor(x) >= k {
      Pow2RLe(k, Log2Floor(x));
    }
  }

  /** An x of at least 2^k has binary exponent at least k. */
  lemma {:induction false} Log2FloorAtLeastPower(x: real, k: int)
    requires Pow2R(k) <= x
    ensures x > 0.0 && Log2Floor(x) >= k
  {
    Pow2RPositive(k);
    if Log2Floor(x) < k {
      Pow2RLe(Log2Floor(x) + 1, k);
    }
  }

  /** Euclidean division is unique: q and r with n == q*d + r and 0 <= r < d are n / d and n % d. */
  lemma {:induction false} DivModUnique(n: int, d: int, q: int, r: int)
    requires d > 0 && 0 <= r < d && n == q * d + r
    ensures n / d == q && n % d == r
  {
    var q', r' := n / d, n % d;
    if q' > q {
      GapAtLeast(q' - q, d, r - r', n, q, r, q', r');
    } else if q' < q {
      GapAtLeast(q - q', d, r' - r, n, q', r', q, r);
    }
  }

  /** Two Euclidean splittings of n whose quotients differ by k >= 1 would need remainders d*k apart. */
  lemma {:induction false} GapAtLeast(k: int, d: int, g: int, n: int, q1: int, r1: int, q2: int, r2: int)
    requires d > 0 && k >= 1 && q2 == q1 + k && g == r1 - r2
    requires n == q1 * d + r1 && n == q2 * d + r2
    ensures g >= d
  {
    assert q2 * d == q1 * d + k * d;
    assert k * d >= d;
  }
}
