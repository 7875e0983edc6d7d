/** Divisors, the greatest common divisor, and the two Euclidean loops of the firmware. */
module Euclid {
  import opened Integers

  ghost predicate Divides(d: int, n: int) {
    d > 0 && n % d == 0
  }

  /** No common divisor but 1: defined without reference to any algorithm. */
  ghost predicate Coprime(a: nat, b: nat) {
    forall d: nat :: Divides(d, a) && Divides(d, b) ==> d == 1
  }

  function Gcd(a: nat, b: nat): nat
    decreases b
  {
    if b == 0 then a else Gcd(b, a % b)
  }

  /** Iterations of a Euclidean loop started on `(a, b)`. */
  function EuclidSteps(a: nat, b: nat): nat
    decreases b
  {
    if b == 0 then 0 else 1 + EuclidSteps(b, a % b)
  }

  lemma DividesCombination(d: int, x: int, y: int, k: int)
    requires Divides(d, x) && Divides(d, y)
    ensures Divides(d, x + k * y)
  {
    assert y == d * (y / d);
    assert x + k * y == x + (k * (y / d)) * d;
    ModShift(x, k * (y / d), d);
  }

  lemma CommonDivisorsStep(a: nat, b: nat, d: nat)
    requires b > 0
    ensures Divides(d, a) && Divides(d, b) <==> Divides(d, b) && Divides(d, a % b)
  {
    var q, r := a / b, a % b;
    assert a == r + q * b;
    if Divides(d, a) && Divides(d, b) {
      DividesCombination(d, a, b, -q);
      assert a + -q * b == r;
    }
    if Divides(d, r) && Divides(d, b) {
      DividesCombination(d, r, b, q);
    }
  }

  /** The universal property: the common divisors of `a` and `b` are exactly the divisors of the result. */
  lemma {:induction false} GcdCommonDivisors(a: nat, b: nat, d: nat)
    ensures Divides(d, Gcd(a, b)) <==> Divides(d, a) && Divides(d, b)
    decreases b
  {
    if b == 0 {
      if d > 0 { ModOfSmall(0, d); }
    } else {
      GcdCommonDivisors(b, a % b, d);
      CommonDivisorsStep(a, b, d);
    }
  }

  lemma CoprimeIffGcdIsOne(a: nat, b: nat)
    ensures Coprime(a, b) <==> Gcd(a, b) == 1
  {
    var g := Gcd(a, b);
    if g == 1 {
      forall d: nat | Divides(d, a) && Divides(d, b)
        ensures d == 1
      {
        GcdCommonDivisors(a, b, d);
        if d > 1 { ModOfSmall(1, d); }
      }
    } else {
      var d := if g == 0 then 2 else g;
      assert Divides(d, g) by {
        DivModUnique(g, d, if g == 0 then 0 else 1, 0);
      }
      GcdCommonDivisors(a, b, d);
    }
  }

  lemma ZeroIsNotCoprime(m: nat)
    requires m > 1
    ensures !Coprime(0, m)
  {
    DivModUnique(0, m, 0, 0);
    DivModUnique(m, m, 1, 0);
    assert Divides(m, 0) && Divides(m, m);
  }

  /** `x` is the multiplicative inverse of `a` modulo `m`, reduced. */
  ghost predicate IsInverse(x: int, a: nat, m: nat) {
    1 <= x < m && (a * x) % m == 1
  }

  /** The answer `modInverse` owes its caller. */
  ghost predicate InverseOrZero(x: int, a: nat, m: nat) {
    if m > 1 && Coprime(a, m) then IsInverse(x, a, m) else x == 0
  }

  lemma InverseIsUnique(x: int, y: int, a: nat, m: nat)
    requires IsInverse(x, a, m) && IsInverse(y, a, m)
    ensures x == y
  {
    ModOfSmall(1, m);
    CongruentMul(a * x, 1, y, m);
    CongruentMul(a * y, 1, x, m);
    assert a * x * y == a * y * x;
    assert Congruent(x, y, m);
    ModOfSmall(x, m);
    ModOfSmall(y, m);
  }

  lemma InverseImpliesCoprime(x: int, a: nat, m: nat)
    requires IsInverse(x, a, m)
    ensures Coprime(a, m)
  {
    forall d: nat | Divides(d, a) && Divides(d, m)
      ensures d == 1
    {
      var k := a * x / m;
      assert a * x == m * k + 1;
      assert Divides(d, 0) by { ModOfSmall(0, d); }
      DividesCombination(d, 0, a, x);
      DividesCombination(d, a * x, m, -k);
      assert 0 + x * a == a * x && a * x + -k * m == 1;
      if d > 1 { ModOfSmall(1, d); }
    }
  }

  /** An answer of `modInverse` is determined by its arguments, and non-zero exactly when an inverse exists. */
  lemma InverseOrZeroDetermined(x: int, y: int, a: nat, m: nat)
    requires InverseOrZero(x, a, m) && InverseOrZero(y, a, m)
    ensures x == y
    ensures x != 0 <==> exists z: int :: IsInverse(z, a, m)
  {
    if m > 1 && Coprime(a, m) {
      InverseIsUnique(x, y, a, m);
    } else if z: int :| IsInverse(z, a, m) {
      InverseImpliesCoprime(z, a, m);
    }
  }

  function Abs(x: int): nat {
    if x < 0 then -x else x
  }

  /** The loop invariant on the Bezout coefficients: alternating signs and a conserved weighted sum. */
  ghost predicate Cofactors(old_s: int, s: int, old_r: nat, r: nat, m: nat) {
    && ((old_s >= 0 && s <= 0) || (old_s <= 0 && s >= 0))
    && Abs(s) * old_r + Abs(old_s) * r == m
  }

  lemma CofactorsStep(old_s: int, s: int, old_r: nat, r: nat, q: nat, r': nat, m: nat)
    requires Cofactors(old_s, s, old_r, r, m)
    requires old_r == q * r + r' && r > 0
    ensures Cofactors(s, old_s - q * s, r, r', m)
    ensures Abs(q * s) <= Abs(old_s - q * s) <= m
  {
    AbsOfStep(old_s, s, q);
    CofactorIdentity(Abs(old_s), Abs(s), q, r, r');
    MulOrder(Abs(old_s - q * s), 1, r);
  }

  lemma AbsOfStep(old_s: int, s: int, q: nat)
    requires (old_s >= 0 && s <= 0) || (old_s <= 0 && s >= 0)
    ensures Abs(q * s) == q * Abs(s)
    ensures Abs(old_s - q * s) == Abs(old_s) + q * Abs(s)
    ensures (s >= 0 && old_s - q * s <= 0) || (s <= 0 && old_s - q * s >= 0)
  {
    MulOrder(q, 0, s);
    MulOrder(q, s, 0);
  }

  lemma CofactorIdentity(u: nat, v: nat, q: nat, r: nat, r': nat)
    ensures (u + q * v) * r + v * r' == v * (q * r + r') + u * r
    ensures v * r' >= 0
  {
    assert (q * v) * r == v * (q * r);
  }

  lemma QuotientAndRemainder(x: nat, y: nat)
    requires y > 0
    ensures x / y >= 0 && x == (x / y) * y + x % y
    ensures (x / y) * y <= x
  {
  }

  /** Both coefficient pairs stay linear combinations of the two inputs. */
  lemma BezoutStep(a: int, m: int, q: int, s0: int, t0: int, r0: int, s1: int, t1: int, r1: int)
    requires r0 == s0 * a + t0 * m
    requires r1 == s1 * a + t1 * m
    ensures r0 - q * r1 == (s0 - q * s1) * a + (t0 - q * t1) * m
  {
    assert q * r1 == (q * s1) * a + (q * t1) * m;
  }

  /** What the loop of `ModInverse` keeps: the gcd, two linear combinations and the size of the coefficients. */
  ghost predicate Bezout(a: nat, m: nat, old_r: nat, r: nat, old_s: int, s: int, old_t: int, t: int) {
    && Gcd(old_r, r) == Gcd(a, m)
    && old_r == old_s * a + old_t * m && r == s * a + t * m
    && Cofactors(old_s, s, old_r, r, m) && Abs(s) <= m && Abs(old_s) <= m
  }

  lemma BezoutRound(a: nat, m: nat, old_r: nat, r: nat, old_s: int, s: int, old_t: int, t: int)
    requires Bezout(a, m, old_r, r, old_s, s, old_t, t) && r > 0
    ensures var q := old_r / r;
      && q * r + old_r % r == old_r && 0 <= q * r <= old_r && q <= old_r
      && Abs(q * s) <= m && Abs(s) <= m && Abs(old_s) <= m && Abs(old_s - q * s) <= m
      && Bezout(a, m, r, old_r % r, s, old_s - q * s, t, old_t - q * t)
  {
    var q := old_r / r;
    QuotientAndRemainder(old_r, r);
    MulOrder(q, 1, r);
    CofactorsStep(old_s, s, old_r, r, q, old_r % r, m);
    BezoutStep(a, m, q, old_s, old_t, old_r, s, t, r);
  }

  lemma ReduceCoefficient(a: nat, m: nat, s: int, t: int)
    requires m > 1 && Abs(s) <= m && s * a + t * m == 1
    ensures IsInverse(if s < 0 then s + m else s, a, m)
  {
    var x := if s < 0 then s + m else s;
    var k := if s < 0 then a - t else -t;
    assert a * x == k * m + 1;
    DivModUnique(a * x, m, k, 1);
    if x == 0 || x == m {
      assert a * x == (if x == 0 then 0 else a) * m + 0;
      DivModUnique(a * x, m, if x == 0 then 0 else a, 0);
    }
  }

  /**
   * The loop body of `modInverse`. Every intermediate of the signed arithmetic has its own 64-bit
   * variable, so the assignments themselves carry the proof that nothing overflows.
   */
  method Round(ghost a: u32, m: u32, old_r: i64, r: i64, old_s: i64, s: i64, ghost old_t: int, ghost t: int)
    returns (old_r': i64, r': i64, old_s': i64, s': i64, ghost old_t': int, ghost t': int)
    requires 0 <= old_r < TWO_TO_32 && 0 < r < TWO_TO_32
    requires Bezout(a, m, old_r, r, old_s, s, old_t, t)
    ensures old_r' == r && r' == old_r % r && 0 <= r' < r
    ensures Bezout(a, m, old_r', r', old_s', s', old_t', t')
  {
    hide Bezout;
    BezoutRound(a, m, old_r, r, old_s, s, old_t, t);
    var q: i64 := old_r / r;
    var qr: i64 := q * r;
    var tmp: i64 := r;
    r' := old_r - qr;
    old_r' := tmp;
    var qs: i64 := q * s;
    tmp := s;
    s' := old_s - qs;
    old_s' := tmp;
    old_t', t' := t, old_t - q * t;
  }

  /** `modInverse`. */
  method ModInverse(a: u32, m: u32) returns (x: u32, ghost iterations: nat)
    ensures InverseOrZero(x, a, m)
    ensures iterations == if m <= 1 then 0 else EuclidSteps(a, m)
  {
    iterations := 0;
    if m <= 1 {
      return 0, 0;
    }
    var old_r: i64, r: i64 := a, m;
    var old_s: i64, s: i64 := 1, 0;
    ghost var old_t, t := 0, 1;
    while r != 0
      invariant 0 <= old_r < TWO_TO_32 && 0 <= r < TWO_TO_32
      invariant iterations + EuclidSteps(old_r, r) == EuclidSteps(a, m)
      invariant Bezout(a, m, old_r, r, old_s, s, old_t, t)
      decreases r
    {
      old_r, r, old_s, s, old_t, t := Round(a, m, old_r, r, old_s, s, old_t, t);
      iterations := iterations + 1;
    }
    CoprimeIffGcdIsOne(a, m);
    if old_r != 1 {
      return 0, iterations;
    }
    ReduceCoefficient(a, m, old_s, old_t);
    if old_s < 0 {
      old_s := old_s + m;
    }
    x := old_s;
  }

  /** `getGCD`: the same remainder sequence as `ModInverse`, so the same number of rounds. */
  method GetGCD(a: u32, b: u32) returns (g: u32, ghost iterations: nat)
    ensures forall d: nat :: Divides(d, g) <==> Divides(d, a) && Divides(d, b)
    ensures g == 1 <==> Coprime(a, b)
    ensures iterations == EuclidSteps(a, b)
  {
    iterations := 0;
    var x, y := a, b;
    while y != 0
      invariant 0 <= x < TWO_TO_32 && 0 <= y < TWO_TO_32
      invariant Gcd(x, y) == Gcd(a, b)
      invariant iterations + EuclidSteps(x, y) == EuclidSteps(a, b)
      decreases y
    {
      var t := y;
      y := x % y;
      x := t;
      iterations := iterations + 1;
    }
    g := x;
    CoprimeIffGcdIsOne(a, b);
    forall d: nat ensures Divides(d, g) <==> Divides(d, a) && Divides(d, b) {
      GcdCommonDivisors(a, b, d);
    }
  }

  function Fib(n: nat): nat {
    if n < 2 then n else Fib(n - 2) + Fib(n - 1)
  }

  /** Lame's theorem: the loop is logarithmic because its operands dominate the Fibonacci numbers. */
  lemma {:induction false} FibonacciBound(a: nat, b: nat)
    requires a > b > 0
    ensures b >= Fib(EuclidSteps(a, b) + 1) && a >= Fib(EuclidSteps(a, b) + 2)
    decreases b
  {
    var r := a % b;
    FirstRemainder(a, b);
    assert EuclidSteps(a, b) == 1 + EuclidSteps(b, r);
    if r == 0 {
      assert EuclidSteps(b, r) == 0;
      assert Fib(2) == 1 && Fib(3) == 2;
    } else {
      FibonacciBound(b, r);
    }
  }

  lemma FirstRemainder(a: nat, b: nat)
    requires a > b > 0
    ensures a >= b + a % b
  {
    QuotientAndRemainder(a, b);
    MulOrder(b, a / b, 0);
    MulOrder(b, 1, a / b);
  }

  lemma {:induction false} FibMonotone(i: nat, j: nat)
    requires i <= j
    ensures Fib(i) <= Fib(j)
    decreases j - i
  {
    if i == j {
    } else {
      FibMonotone(i + 1, j);
    }
  }

  /** The parameter keeps callers from unfolding the literal. */
  lemma Fib48(k: nat)
    requires k == 48
    ensures Fib(k) == 4807526976
  {
    assert Fib(12) == 144 && Fib(13) == 233;
    assert Fib(24) == 46368 && Fib(25) == 75025;
    assert Fib(36) == 14930352 && Fib(37) == 24157817;
    assert Fib(48) == 4807526976;
  }

  lemma FibBeyond32Bits(k: nat, n: nat)
    requires k == 48 && n >= k
    ensures Fib(n) >= TWO_TO_32
  {
    Fib48(k);
    FibMonotone(k, n);
  }

  lemma DescendingPairRounds(a: u32, b: u32)
    requires a > b > 0
    ensures EuclidSteps(a, b) <= 46
  {
    FibonacciBound(a, b);
    if EuclidSteps(a, b) > 46 {
      FibBeyond32Bits(48, EuclidSteps(a, b) + 1);
    }
  }

  /** The documented O(log n), as a number: at most 47 rounds on any 32-bit inputs. */
  lemma At32BitsAtMost47Rounds(a: u32, b: u32)
    ensures EuclidSteps(a, b) <= 47
  {
    if a > b {
      if b > 0 { DescendingPairRounds(a, b); }
    } else if a == b {
      if b > 0 { DivModUnique(a, b, 1, 0); }
    } else {
      ModOfSmall(a, b);
      if a > 0 { DescendingPairRounds(b, a); }
    }
  }
}
