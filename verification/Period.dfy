/**
 The period of the Lehmer generator: from any state in [1, M-1] the successive
 states run through every number of that range before the first one comes back.

 M - 1 = 2 * 3 * 3 * 7 * 11 * 31 * 151 * 331.  The multiplier's power is 1 at the
 exponent M - 1 and at none of the exponents (M - 1) / q for a prime q of that
 list, so no smaller exponent gives 1.  The primality of M is not assumed.
 */
module Period {
  import opened Bits
  import opened PowerTable
  import opened RandomNumbers

  /** The state after `n` draws. */
  function Iterate(seed: nat, n: nat): nat {
    if n == 0 then seed else Lehmer(Iterate(seed, n - 1))
  }

  /** A^n modulo M. */
  ghost function Power(n: nat): (r: nat)
    ensures r < M
  {
    Iterate(1, n)
  }

  lemma {:induction false} IterateIsPower(seed: nat, n: nat)
    requires seed < M
    ensures Iterate(seed, n) == seed * Power(n) % M
  {
    if n == 0 {
      assert seed * Power(0) % M == seed;
    } else {
      hide Iterate, Lehmer;
      IterateIsPower(seed, n - 1);
      IterateStep(seed, n);
      IterateStep(1, n);
      MulSwap(seed, Power(n - 1));
    }
  }

  lemma IterateStep(seed: nat, n: nat)
    requires n > 0
    ensures Iterate(seed, n) == Iterate(seed, n - 1) * A % M
  {
  }

  /** Multiplying a reduced product by A is multiplying by the reduced product with A. */
  lemma MulSwap(x: nat, p: nat)
    ensures (x * p % M) * A % M == x * (p * A % M) % M
  {
    calc {
      (x * p % M) * A % M;
      { ModMul(x * p, A); }
      (x * p) * A % M;
      { MulAssociate(x, p, A); MulCommute(x, p * A); }
      (p * A) * x % M;
      { ModMul(p * A, x); }
      (p * A % M) * x % M;
      { MulCommute(x, p * A % M); }
      x * (p * A % M) % M;
    }
  }

  lemma MulCommute(x: nat, y: nat)
    ensures x * y == y * x
  {
  }

  lemma {:induction false} IterateAdd(seed: nat, m: nat, n: nat)
    ensures Iterate(seed, m + n) == Iterate(Iterate(seed, m), n)
  {
    if n > 0 {
      IterateAdd(seed, m, n - 1);
      assert m + (n - 1) == m + n - 1;
    }
  }

  lemma PowerAdd(m: nat, n: nat)
    ensures Power(m + n) == Power(m) * Power(n) % M
  {
    IterateAdd(1, m, n);
    IterateIsPower(Power(m), n);
  }

  lemma PowerIsExponential()
    ensures Exponential(Power)
  {
    forall i: nat, j: nat
      ensures Power(i + j) == Power(i) * Power(j) % M
    {
      PowerAdd(i, j);
    }
    assert Power(1) == 16807;
  }

  // ---- small primes -------------------------------------------------------------

  /** No number from 2 to k divides q. */
  predicate Undivided(q: nat, k: nat) {
    k < 2 || (q % k != 0 && Undivided(q, k - 1))
  }

  ghost predicate Factors(q: nat, a: nat, b: nat) {
    q == a * b
  }

  ghost predicate Prime(q: nat) {
    q > 1 && forall a: nat, b: nat :: 1 < a < q ==> !Factors(q, a, b)
  }

  lemma {:induction false} UndividedBelow(q: nat, k: nat, a: nat)
    requires Undivided(q, k) && 2 <= a <= k
    ensures q % a != 0
  {
    if a < k {
      UndividedBelow(q, k - 1, a);
    }
  }

  /** Trial division up to the square root is enough. */
  lemma TrialDivision(q: nat, k: nat)
    requires q > 1 && k < q < (k + 1) * (k + 1) && Undivided(q, k)
    ensures Prime(q)
  {
    forall a: nat, b: nat | 1 < a < q
      ensures !Factors(q, a, b)
    {
      NoCofactor(q, k, a, b);
    }
  }

  lemma NoCofactor(q: nat, k: nat, a: nat, c: nat)
    requires Undivided(q, k) && q < (k + 1) * (k + 1) && 1 < a < q
    ensures q != a * c
  {
    if q == a * c {
      if a <= k {
        DivUnique(q, a, c, 0);
        UndividedBelow(q, k, a);
      } else if c <= k {
        assert c > 1;
        DivUnique(q, c, a, 0);
        UndividedBelow(q, k, c);
      } else {
        MulGrows(k + 1, k + 1, a, c);
      }
    }
  }

  lemma MulGrows(a: nat, b: nat, c: nat, d: nat)
    requires a <= c && b <= d
    ensures a * b <= c * d
  {
    assert c * d - a * b == (c - a) * d + a * (d - b);
  }

  lemma NonNegative(x: int, q: nat)
    requires q > 0 && x * q >= 0
    ensures x >= 0
  {
  }

  /** A prime that divides a product divides the second factor when it is above the first. */
  lemma {:induction false} PrimeBelow(q: nat, a: nat, b: nat)
    requires Prime(q) && 0 < a < q && a * b % q == 0
    ensures b % q == 0
    decreases a
  {
    if a > 1 {
      var k, r := q / a, q % a;
      assert q == k * a + r;
      assert 0 < r < a by { assert !Factors(q, a, k); }
      var t := a * b / q;
      assert a * b == t * q;
      assert r * b == (b - k * t) * q by {
        assert r * b == q * b - k * (a * b);
        MulAssociate(k, t, q);
        MulDistribute(b, k * t, q);
      }
      NonNegative(b - k * t, q);
      DivUnique(r * b, q, b - k * t, 0);
      PrimeBelow(q, r, b);
    }
  }

  /** A prime that does not divide m can be cancelled from a multiple of m. */
  lemma StripPrime(q: nat, m: nat, t: nat, r: nat)
    requires Prime(q) && m % q != 0 && m * t == q * r
    ensures m * (t / q) == r
  {
    assert q > 1;
    hide Prime;
    var k, a := m / q, m % q;
    assert m == k * q + a;
    RemainderMultiple(q, k, a, t, r);
    DivUnique(a * t, q, r - k * t, 0);
    PrimeBelow(q, a, t);
    var u := t / q;
    assert t == u * q;
    MulAssociate(m, u, q);
    DivUnique(m * t, q, m * u, 0);
    DivUnique(q * r, q, r, 0);
  }

  lemma RemainderMultiple(q: nat, k: nat, a: nat, t: nat, r: nat)
    requires q > 0 && (k * q + a) * t == q * r
    ensures r - k * t >= 0 && a * t == (r - k * t) * q
  {
    MulDistribute(k * q, a, t);
    MulAssociate(k, q, t);
    MulAssociate(k, t, q);
    MulCommute(q, t);
    MulDistribute(r, k * t, q);
    NonNegative(r - k * t, q);
  }

  lemma AllPrime(q: nat)
    requires q in PRIMES
    ensures Prime(q)
  {
    assert Undivided(31, 5) && Undivided(151, 12);
    assert Undivided(331, 18) by {
      assert Undivided(331, 9);
      assert Undivided(331, 9 + 9);
    }
    if q < 31 {
      TrialDivision(q, if q < 4 then 1 else if q < 9 then 2 else 3);
    } else {
      TrialDivision(q, if q == 31 then 5 else if q == 151 then 12 else 18);
    }
  }

  /** A divisor of N that none of the seven primes divides is 1. */
  lemma PrimesDivideOut(m: nat, t: nat)
    requires m * t == N && forall q :: q in PRIMES ==> m % q != 0
    ensures m == 1
  {
    hide Prime;
    forall q | q in PRIMES
      ensures Prime(q)
    {
      AllPrime(q);
    }
    assert N == 331 * 6487866;
    StripPrime(331, m, t, 6487866);
    var t1 := t / 331;
    StripPrime(151, m, t1, 42966);
    var t2 := t1 / 151;
    StripPrime(31, m, t2, 1386);
    var t3 := t2 / 31;
    StripPrime(11, m, t3, 126);
    var t4 := t3 / 11;
    StripPrime(7, m, t4, 18);
    var t5 := t4 / 7;
    StripPrime(3, m, t5, 6);
    var t6 := t5 / 3;
    StripPrime(3, m, t6, 2);
    var t7 := t6 / 3;
    StripPrime(2, m, t7, 1);
  }

  /** Every divisor of N above 1 is divisible by one of the seven primes. */
  lemma DivisorHasPrime(m: nat, t: nat)
    requires m * t == N && m > 1
    ensures exists q :: q in PRIMES && m % q == 0
  {
    if forall q :: q in PRIMES ==> m % q != 0 {
      PrimesDivideOut(m, t);
    }
  }

  // ---- the order of the multiplier ----------------------------------------------

  lemma {:induction false} PowerMultiple(d: nat, k: nat)
    requires Power(d) == 1
    ensures Power(d * k) == 1
  {
    if k > 0 {
      PowerMultiple(d, k - 1);
      assert d * k == d * (k - 1) + d;
      PowerAdd(d * (k - 1), d);
    } else {
      assert Power(0) == 1;
    }
  }

  lemma PowerRemainder(a: nat, b: nat)
    requires b > 0 && Power(b) == 1
    ensures Power(a % b) == Power(a)
  {
    var k, r := a / b, a % b;
    assert a == b * k + r;
    PowerMultiple(b, k);
    PowerAdd(b * k, r);
  }

  /** Two exponents that give 1 have a common divisor that gives 1. */
  lemma {:induction false} CommonExponent(a: nat, b: nat) returns (d: nat, i: nat, j: nat)
    requires a > 0 && Power(a) == 1 && Power(b) == 1
    ensures d > 0 && Power(d) == 1 && a == d * i && b == d * j
    decreases a
  {
    var k, r := b / a, b % a;
    assert b == k * a + r;
    PowerRemainder(b, a);
    if r == 0 {
      d, i, j := a, 1, k;
    } else {
      var l;
      d, l, i := CommonExponent(r, a);
      j := k * i + l;
      assert k * (d * i) + d * l == d * (k * i + l);
    }
  }

  lemma FullPower()
    ensures Power(N) == 1
  {
    PowerIsExponential();
    PowersOver2And3(Power);
  }

  /** N is the least positive exponent that gives 1. */
  lemma NoShorterPeriod(k: nat)
    requires 0 < k < N
    ensures Power(k) != 1
  {
    if Power(k) == 1 {
      FullPower();
      var d, i, m := CommonExponent(k, N);
      assert m > 1 by {
        if m <= 1 {
          assert d * m <= d;
          MulAtLeast(i, d);
        }
      }
      ProperDivisor(d, m);
    }
  }

  lemma ProperDivisor(d: nat, m: nat)
    requires d * m == N && m > 1
    ensures Power(d) != 1
  {
    DivisorHasPrime(m, d);
    var q :| q in PRIMES && m % q == 0;
    var c := m / q;
    assert m == c * q;
    MulAssociate(d, c, q);
    DivUnique(N, q, d * c, 0);
    if Power(d) == 1 {
      PowerMultiple(d, c);
      PowerIsExponential();
      PrimeExponents(Power, q);
    }
  }

  // ---- the orbit ------------------------------------------------------------------

  lemma {:induction false} PowerCancel(i: nat, k: nat)
    requires Power(i + k) == Power(i)
    ensures Power(k) == 1
  {
    if i == 0 {
      assert Power(0) == 1;
    } else {
      LehmerInjective(Power(i - 1 + k), Power(i - 1));
      PowerCancel(i - 1, k);
    }
  }

  lemma {:induction false} IterateStays(seed: nat, n: nat)
    requires 1 <= seed < M
    ensures 1 <= Iterate(seed, n) < M
  {
    if n > 0 {
      IterateStays(seed, n - 1);
      LehmerStays(Iterate(seed, n - 1));
    }
  }

  ghost function Orbit(n: nat): set<nat> {
    if n == 0 then {} else Orbit(n - 1) + {Power(n - 1)}
  }

  lemma {:induction false} OrbitMember(n: nat, x: nat)
    ensures x in Orbit(n) <==> exists k: nat :: k < n && Power(k) == x
  {
    if n > 0 {
      OrbitMember(n - 1, x);
      if x == Power(n - 1) {
        assert n - 1 < n && Power(n - 1) == x;
      }
    }
  }

  /** The first N powers are N different numbers. */
  lemma {:induction false} OrbitSize(n: nat)
    requires n <= N
    ensures |Orbit(n)| == n
  {
    if n > 0 {
      OrbitSize(n - 1);
      PowerIsNew(n - 1);
      hide Power;
    }
  }

  lemma PowerIsNew(n: nat)
    requires n < N
    ensures Power(n) !in Orbit(n)
  {
    hide Power, Orbit;
    OrbitMember(n, Power(n));
    forall k: nat | k < n
      ensures Power(k) != Power(n)
    {
      NoShorterPeriod(n - k);
      assert k + (n - k) == n;
      if Power(k) == Power(n) {
        PowerCancel(k, n - k);
      }
    }
  }

  ghost function UpTo(n: nat): set<nat> {
    if n == 0 then {} else UpTo(n - 1) + {n}
  }

  lemma {:induction false} UpToMember(n: nat, x: nat)
    ensures x in UpTo(n) <==> 1 <= x <= n
  {
    if n > 0 {
      UpToMember(n - 1, x);
    }
  }

  lemma {:induction false} UpToSize(n: nat)
    ensures |UpTo(n)| == n
  {
    if n > 0 {
      UpToSize(n - 1);
      UpToMember(n - 1, n);
    }
  }

  lemma SameSize(a: set<nat>, b: set<nat>)
    requires a <= b && |a| == |b|
    ensures a == b
  {
    assert b == a + (b - a);
    assert |b| == |a| + |b - a|;
  }

  /** Every state is a power of the multiplier. */
  lemma Discrete(x: nat) returns (k: nat)
    requires 1 <= x < M
    ensures k < N && Power(k) == x
  {
    forall y | y in Orbit(N)
      ensures y in UpTo(N)
    {
      OrbitMember(N, y);
      var k: nat :| k < N && Power(k) == y;
      IterateStays(1, k);
      UpToMember(N, y);
    }
    OrbitSize(N);
    UpToSize(N);
    SameSize(Orbit(N), UpTo(N));
    UpToMember(N, x);
    OrbitMember(N, x);
    k :| k < N && Power(k) == x;
  }

  // ---- main results ------------------------------------------------------------------

  /** From any state in [1, M-1] every state of that range is reached within M - 1 draws. */
  lemma VisitsEverything(seed: nat, target: nat) returns (n: nat)
    requires 1 <= seed < M && 1 <= target < M
    ensures n < N && Iterate(seed, n) == target
  {
    hide Iterate;
    var i := Discrete(seed);
    var j := Discrete(target);
    n := if i <= j then j - i else j + N - i;
    IterateAdd(1, i, n);
    if i > j {
      FullPower();
      PowerAdd(j, N);
      TimesOne(Power(j));
    }
  }

  /** The multiplier's power is 1 exactly at the multiples of M - 1. */
  lemma PowerOne(n: nat)
    ensures Power(n) == 1 <==> n % N == 0
  {
    FullPower();
    PowerRemainder(n, N);
    assert Power(0) == 1;
    hide Power;
    if n % N != 0 {
      NoShorterPeriod(n % N);
    }
  }

  lemma TimesOne(x: nat)
    requires x < M
    ensures x * 1 % M == x
  {
  }

  /** The state comes back exactly after the multiples of M - 1 draws. */
  lemma ExactPeriod(seed: nat, n: nat)
    requires 1 <= seed < M
    ensures Iterate(seed, n) == seed <==> n % N == 0
  {
    hide Iterate;
    var i := Discrete(seed);
    IterateAdd(1, i, n);
    PowerOne(n);
    if Power(n) == 1 {
      PowerAdd(i, n);
      TimesOne(Power(i));
    } else if Power(i + n) == Power(i) {
      PowerCancel(i, n);
    }
  }
}
