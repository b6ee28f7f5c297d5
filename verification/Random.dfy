/**
 The Lehmer random number generator that chooses node heights.
 */
module RandomNumbers {
  import opened Bits

  const M: nat := 0x7fff_ffff
  const A: nat := 16807

  /** What one draw is meant to compute. */
  function Lehmer(seed: nat): (r: nat) {
    seed * A % M
  }

  /** What a draw returns from any seed the constructor can leave behind. */
  function Draw(seed: nat): nat {
    if seed == M then M else Lehmer(seed)
  }

  class Random {
    var seed: nat

    ghost predicate Valid()
      reads this
    {
      seed <= M
    }

    constructor (s: nat)
      requires s < 0x1_0000_0000
      ensures Valid() && seed == s % 0x8000_0000
    {
      MaskIsRemainder(s);
      seed := And(s, M);
    }

    /** Shift-and-add reduction; M and 0 are the two seeds that never move. */
    method Next() returns (r: nat)
      requires Valid()
      modifies this
      ensures Valid() && seed == r
      ensures r == Draw(old(seed))
      ensures r == if old(seed) == 0x7fff_ffff then 0x7fff_ffff else old(seed) * 16807 % 0x7fff_ffff
      ensures 1 <= r < M <==> 1 <= old(seed) < M
    {
      DrawIs(seed);
      hide And, Shr, Draw, Lehmer;
      LehmerStays(seed);
      FoldIsRemainder(seed);
      var product := seed * A;
      seed := (Shr(product, 31) + And(product, M)) % 0x1_0000_0000;
      if seed > M {
        seed := seed - M;
      }
      return seed;
    }

    method Uniform(n: nat) returns (r: nat)
      requires Valid() && 0 < n < 0x8000_0000
      modifies this
      ensures Valid() && r < n
      ensures seed == Draw(old(seed)) && r == seed % n
    {
      var x := Next();
      r := x % n;
    }

    /** The first draw chooses a base from [0, maxLog], the second a number below 2^base. */
    method Skewed(maxLog: nat) returns (r: nat, ghost base: nat)
      requires Valid() && maxLog <= 30
      modifies this
      ensures Valid() && base <= maxLog && r < Pow2(base) <= Pow2(maxLog)
      ensures base == Draw(old(seed)) % (maxLog + 1) && seed == Draw(Draw(old(seed))) && r == seed % Pow2(base)
    {
      var b := Uniform(maxLog + 1);
      base := b;
      Pow2Monotone(b, maxLog);
      Pow2Monotone(b, 30);
      Powers();
      ShlMul(1, b);
      r := Uniform(Shl(1, b));
    }
  }

  lemma DrawIs(seed: nat)
    ensures Draw(seed) == if seed == 0x7fff_ffff then 0x7fff_ffff else seed * 16807 % 0x7fff_ffff
  {
  }

  lemma MaskIsRemainder(x: nat)
    ensures And(x, M) == x % 0x8000_0000
  {
    Powers();
    AndMask(x, 31);
  }

  /** The fold leaves at most one M too many, so one conditional subtraction finishes the reduction. */
  lemma FoldIsRemainder(seed: nat)
    requires seed <= M
    ensures var product := seed * A;
            var t := Shr(product, 31) + And(product, M);
            t < 0x1_0000_0000 && (if t > M then t - M else t) == Draw(seed)
  {
    var product := seed * A;
    Powers();
    MaskIsRemainder(product);
    ShrDiv(product, 31);
    var q, r := product / 0x8000_0000, product % 0x8000_0000;
    assert product == q * M + (q + r);
    assert q < A;
    if seed < M {
      if q + r == M {
        assert product == (q + 1) * M;
        NotMultiple(seed);
      } else if q + r > M {
        DivUnique(product, M, q + 1, q + r - M);
      } else {
        DivUnique(product, M, q, q + r);
      }
    }
  }

  // ---- arithmetic modulo M -----------------------------------------------------

  const A_INVERSE: nat := 1407677000

  lemma ModMul(a: nat, b: nat)
    ensures (a % M) * b % M == a * b % M
  {
    var q, r := a / M, a % M;
    assert a == q * M + r;
    MulDistribute(q * M, r, b);
    MulAssociate(q, M, b);
    MulAssociate(q, b, M);
    var s, t := r * b / M, r * b % M;
    assert r * b == s * M + t;
    MulDistribute(q * b, s, M);
    DivUnique(a * b, M, q * b + s, t);
  }

  lemma Cancel(x: nat)
    requires x < M
    ensures Lehmer(x) * A_INVERSE % M == x
  {
    ModMul(x * A, A_INVERSE);
    MulAssociate(x, A, A_INVERSE);
    assert A * A_INVERSE == 11017 * M + 1;
    assert x * (11017 * M + 1) == (x * 11017) * M + x;
    DivUnique(x * (A * A_INVERSE), M, x * 11017, x);
  }

  /** No two states below M have the same successor. */
  lemma LehmerInjective(x: nat, y: nat)
    requires x < M && y < M && Lehmer(x) == Lehmer(y)
    ensures x == y
  {
    Cancel(x);
    Cancel(y);
  }

  lemma NotMultiple(seed: nat)
    requires 0 < seed < M
    ensures Lehmer(seed) != 0
    ensures forall k: nat :: seed * A != k * M
  {
    Cancel(seed);
    forall k: nat
      ensures seed * A != k * M
    {
      if seed * A == k * M {
        DivUnique(seed * A, M, k, 0);
      }
    }
  }

  lemma LehmerStays(seed: nat)
    requires seed <= M
    ensures Draw(seed) <= M
    ensures 1 <= Draw(seed) < M <==> 1 <= seed < M
  {
    if 0 < seed < M {
      NotMultiple(seed);
    }
  }
}
