/**
 Binary arithmetic on natural numbers: the shift, mask and bitwise operators that
 the coding routines and the random generator apply to unsigned integers.
 A fixed-width result is written out as a remainder modulo a power of two.
 */
module Bits {

  function Pow2(k: nat): (r: nat)
    ensures r > 0
  {
    if k == 0 then 1 else 2 * Pow2(k - 1)
  }

  function Shl(x: nat, k: nat): nat {
    if k == 0 then x else 2 * Shl(x, k - 1)
  }

  function Shr(x: nat, k: nat): nat {
    if k == 0 then x else Shr(x / 2, k - 1)
  }

  function And(x: nat, y: nat): nat
    decreases x
  {
    if x == 0 || y == 0 then 0 else (if x % 2 == 1 && y % 2 == 1 then 1 else 0) + 2 * And(x / 2, y / 2)
  }

  function Or(x: nat, y: nat): nat
    decreases x + y
  {
    if x == 0 then y
    else if y == 0 then x
    else (if x % 2 == 1 || y % 2 == 1 then 1 else 0) + 2 * Or(x / 2, y / 2)
  }

  function Xor(x: nat, y: nat): nat
    decreases x + y
  {
    if x == 0 then y
    else if y == 0 then x
    else (if x % 2 != y % 2 then 1 else 0) + 2 * Xor(x / 2, y / 2)
  }

  /** Bit `i` of `x`, counted from the least significant. */
  predicate Bit(x: nat, i: nat) {
    if i == 0 then x % 2 == 1 else Bit(x / 2, i - 1)
  }

  // ---- powers of two -------------------------------------------------------

  lemma {:induction false} Pow2Add(a: nat, b: nat)
    ensures Pow2(a + b) == Pow2(a) * Pow2(b)
  {
    if a > 0 {
      Pow2Add(a - 1, b);
      assert Pow2(a + b) == 2 * Pow2((a - 1) + b);
    }
  }

  lemma {:induction false} Pow2Monotone(a: nat, b: nat)
    requires a <= b
    ensures Pow2(a) <= Pow2(b)
  {
    Pow2Add(b - a, a);
    MulAtLeast(Pow2(b - a), Pow2(a));
  }

  lemma Powers()
    ensures Pow2(3) == 8 && Pow2(7) == 128 && Pow2(8) == 256
    ensures Pow2(16) == 0x1_0000 && Pow2(24) == 0x100_0000
    ensures Pow2(30) == 0x4000_0000 && Pow2(31) == 0x8000_0000 && Pow2(32) == 0x1_0000_0000
    ensures Pow2(64) == 0x1_0000_0000_0000_0000
  {
    assert Pow2(3) == 8 && Pow2(7) == 128 && Pow2(8) == 256;
    Pow2Add(8, 8);
    Pow2Add(16, 8);
    Pow2Add(16, 16);
    Pow2Add(32, 32);
    assert Pow2(32) == 2 * Pow2(31) && Pow2(31) == 2 * Pow2(30);
  }

  lemma MulAtLeast(a: nat, b: nat)
    requires a >= 1
    ensures a * b >= b
  {
  }

  // ---- halving -------------------------------------------------------------

  lemma MulDistribute(a: int, b: int, c: int)
    ensures (a + b) * c == a * c + b * c
    ensures (a - b) * c == a * c - b * c
  {
  }

  lemma MulAssociate(a: int, b: int, c: int)
    ensures (a * b) * c == a * (b * c)
  {
  }

  /** Quotient and remainder are determined by the division equation. */
  lemma DivUnique(x: nat, d: nat, q: nat, r: nat)
    requires r < d && x == q * d + r
    ensures x / d == q && x % d == r
  {
    var q', r' := x / d, x % d;
    assert x == q' * d + r';
    MulDistribute(q, q', d);
    MulDistribute(q', q, d);
    if q > q' {
      MulAtLeast(q - q', d);
    } else if q' > q {
      MulAtLeast(q' - q, d);
    }
  }

  lemma DivDiv(x: nat, a: nat, b: nat)
    requires a > 0 && b > 0
    ensures a * b > 0 && (x / a) / b == x / (a * b) && x % (a * b) == x % a + ((x / a) % b) * a
  {
    var y, r := x / a, x % a;
    var q, s := y / b, y % b;
    assert x == y * a + r;
    assert y == q * b + s;
    MulDistribute(q * b, s, a);
    MulAssociate(q, b, a);
    MulDistribute(b - 1 - s, s + 1, a);
    assert (b - 1 - s) * a >= 0;
    MulDistribute(s, 1, a);
    assert b * a == a * b;
    DivUnique(x, a * b, q, s * a + r);
  }

  lemma DivShift(x: nat, k: nat)
    ensures x / Pow2(k + 1) == (x / 2) / Pow2(k)
    ensures x % Pow2(k + 1) == x % 2 + 2 * ((x / 2) % Pow2(k))
  {
    DivDiv(x, 2, Pow2(k));
  }

  lemma {:induction false} ShlMul(x: nat, k: nat)
    ensures Shl(x, k) == x * Pow2(k)
  {
    if k > 0 {
      ShlMul(x, k - 1);
      MulAssociate(x, 2, Pow2(k - 1));
      MulAssociate(2, x, Pow2(k - 1));
    }
  }

  lemma {:induction false} ShrDiv(x: nat, k: nat)
    ensures Shr(x, k) == x / Pow2(k)
  {
    if k > 0 {
      ShrDiv(x / 2, k - 1);
      DivShift(x, k - 1);
    }
  }

  lemma {:induction false} ShrAtMost(x: nat, k: nat)
    ensures Shr(x, k) <= x
  {
    if k > 0 {
      ShrAtMost(x / 2, k - 1);
    }
  }

  // ---- masks ---------------------------------------------------------------

  /** `x & (2^k - 1)` keeps the low k bits. */
  lemma {:induction false} AndMask(x: nat, k: nat)
    ensures And(x, Pow2(k) - 1) == x % Pow2(k)
    decreases k
  {
    hide And;
    if k == 0 {
      AndZero(x);
      assert x % Pow2(0) == 0;
    } else {
      AndOdd(x, Pow2(k - 1) - 1);
      AndMask(x / 2, k - 1);
      DivShift(x, k - 1);
    }
  }

  lemma {:induction false} AndZero(x: nat)
    ensures And(x, 0) == 0
  {
  }

  lemma {:induction false} AndHalves(x: nat, y: nat)
    ensures And(x, y) == if x == 0 || y == 0 then 0 else (if x % 2 == 1 && y % 2 == 1 then 1 else 0) + 2 * And(x / 2, y / 2)
  {
  }

  lemma {:induction false} AndOdd(x: nat, m: nat)
    ensures And(x, 2 * m + 1) == x % 2 + 2 * And(x / 2, m)
  {
    hide And;
    assert (2 * m + 1) / 2 == m && (2 * m + 1) % 2 == 1;
    AndHalves(x, 2 * m + 1);
    AndHalves(x / 2, m);
  }

  lemma {:induction false} AndAtMost(x: nat, y: nat)
    ensures And(x, y) <= x
  {
    if x != 0 && y != 0 {
      AndAtMost(x / 2, y / 2);
    }
  }

  /** Testing one bit. */
  lemma AndFour(x: nat)
    ensures And(x, 4) == 0 <==> x / 4 % 2 == 0
  {
    assert And(x, 4) == 2 * And(x / 2, 2);
    assert And(x / 2, 2) == 2 * And(x / 2 / 2, 1);
  }

  /** Or-ing a shifted value into the empty high bits is addition. */
  lemma {:induction false} OrHigh(low: nat, high: nat, k: nat)
    requires low < Pow2(k)
    ensures Or(low, Shl(high, k)) == low + Shl(high, k)
    decreases k
  {
    if high == 0 {
      ShlMul(high, k);
    } else if k > 0 && low > 0 {
      OrHigh(low / 2, high, k - 1);
    }
  }

  // ---- bit by bit ------------------------------------------------------------

  lemma {:induction false} BitAnd(x: nat, y: nat, i: nat)
    ensures Bit(And(x, y), i) <==> Bit(x, i) && Bit(y, i)
    decreases i
  {
    if x == 0 || y == 0 {
      BitZero(i);
    } else if i > 0 {
      assert And(x, y) / 2 == And(x / 2, y / 2);
      BitAnd(x / 2, y / 2, i - 1);
    }
  }

  lemma {:induction false} BitZero(i: nat)
    ensures !Bit(0, i)
  {
    if i > 0 {
      BitZero(i - 1);
    }
  }

  lemma {:induction false} BitShl(x: nat, k: nat, i: nat)
    ensures Bit(Shl(x, k), i) <==> i >= k && Bit(x, i - k)
    decreases k
  {
    if k > 0 && i > 0 {
      BitShl(x, k - 1, i - 1);
    }
  }

  lemma {:induction false} BitShr(x: nat, k: nat, i: nat)
    ensures Bit(Shr(x, k), i) <==> Bit(x, i + k)
    decreases k
  {
    if k > 0 {
      BitShr(x / 2, k - 1, i);
    }
  }

  lemma {:induction false} BitMod(x: nat, k: nat, i: nat)
    ensures Bit(x % Pow2(k), i) <==> i < k && Bit(x, i)
    decreases k
  {
    if k == 0 {
      assert x % Pow2(0) == 0;
      BitZero(i);
    } else {
      DivShift(x, k - 1);
      var y := (x / 2) % Pow2(k - 1);
      assert x % Pow2(k) == x % 2 + 2 * y;
      if i > 0 {
        BitMod(x / 2, k - 1, i - 1);
        assert (x % 2 + 2 * y) / 2 == y;
      }
    }
  }

  /** Numbers below 2^k with the same k bits are the same number. */
  lemma {:induction false} SameBits(x: nat, y: nat, k: nat)
    requires x < Pow2(k) && y < Pow2(k)
    requires forall i :: 0 <= i < k ==> Bit(x, i) == Bit(y, i)
    ensures x == y
    decreases k
  {
    if k > 0 {
      assert Bit(x, 0) == Bit(y, 0);
      forall i | 0 <= i < k - 1
        ensures Bit(x / 2, i) == Bit(y / 2, i)
      {
        assert Bit(x, i + 1) == Bit(y, i + 1);
      }
      SameBits(x / 2, y / 2, k - 1);
    }
  }

  /** Complement within k bits. */
  lemma {:induction false} BitNot(x: nat, k: nat, i: nat)
    requires x < Pow2(k) && i < k
    ensures Bit(Pow2(k) - 1 - x, i) <==> !Bit(x, i)
    decreases k
  {
    NotHalf(x, Pow2(k - 1));
    if i > 0 {
      BitNot(x / 2, k - 1, i - 1);
    }
  }

  lemma NotHalf(x: nat, p: nat)
    requires x < 2 * p
    ensures x / 2 < p && (2 * p - 1 - x) / 2 == p - 1 - x / 2 && (2 * p - 1 - x) % 2 == 1 - x % 2
  {
  }

  /** Adding numbers that share no bit sets exactly the bits of both. */
  lemma {:induction false} BitSum(x: nat, y: nat, k: nat, i: nat)
    requires x < Pow2(k) && y < Pow2(k)
    requires forall j :: 0 <= j < k ==> !(Bit(x, j) && Bit(y, j))
    ensures x + y < Pow2(k)
    ensures Bit(x + y, i) <==> Bit(x, i) || Bit(y, i)
    decreases k
  {
    if k == 0 {
      BitZero(i);
    } else {
      assert !(Bit(x, 0) && Bit(y, 0));
      forall j | 0 <= j < k - 1
        ensures !(Bit(x / 2, j) && Bit(y / 2, j))
      {
        assert !(Bit(x, j + 1) && Bit(y, j + 1));
      }
      assert (x + y) / 2 == x / 2 + y / 2;
      BitSum(x / 2, y / 2, k - 1, if i > 0 then i - 1 else 0);
    }
  }

  // ---- exclusive or ------------------------------------------------------------

  lemma {:induction false} XorHalves(x: nat, y: nat)
    ensures Xor(x, y) == (if x % 2 != y % 2 then 1 else 0) + 2 * Xor(x / 2, y / 2)
  {
  }

  lemma {:induction false} BitXor(x: nat, y: nat, i: nat)
    ensures Bit(Xor(x, y), i) <==> Bit(x, i) != Bit(y, i)
    decreases i
  {
    hide Xor;
    XorHalves(x, y);
    if i > 0 {
      BitXor(x / 2, y / 2, i - 1);
    }
  }

  lemma {:induction false} XorBound(x: nat, y: nat, k: nat)
    requires x < Pow2(k) && y < Pow2(k)
    ensures Xor(x, y) < Pow2(k)
    decreases k
  {
    if k > 0 {
      XorHalves(x, y);
      hide Xor;
      XorBound(x / 2, y / 2, k - 1);
    }
  }

  lemma XorTwice(x: nat, y: nat, k: nat)
    requires x < Pow2(k) && y < Pow2(k)
    ensures Xor(x, y) < Pow2(k) && Xor(Xor(x, y), y) == x
  {
    hide Xor, Bit;
    XorBound(x, y, k);
    XorBound(Xor(x, y), y, k);
    forall i: nat | i < k
      ensures Bit(Xor(Xor(x, y), y), i) == Bit(x, i)
    {
      BitXor(x, y, i);
      BitXor(Xor(x, y), y, i);
    }
    SameBits(Xor(Xor(x, y), y), x, k);
  }

  /** Exclusive or works on the low and the high bits apart. */
  lemma {:induction false} XorSplit(a: nat, b: nat, c: nat, d: nat, k: nat)
    requires c < Pow2(k) && d < Pow2(k)
    ensures Xor(a * Pow2(k) + c, b * Pow2(k) + d) == Xor(a, b) * Pow2(k) + Xor(c, d)
    decreases k
  {
    hide Xor;
    if k == 0 {
      XorHalves(0, 0);
    } else {
      var p := Pow2(k - 1);
      assert Pow2(k) == 2 * p;
      hide Pow2;
      TwiceScaled(a, p);
      TwiceScaled(b, p);
      TwiceScaled(Xor(a, b), p);
      DoubledHalves(a * p, c);
      DoubledHalves(b * p, d);
      XorHalves(a * Pow2(k) + c, b * Pow2(k) + d);
      XorHalves(c, d);
      XorSplit(a, b, c / 2, d / 2, k - 1);
    }
  }

  lemma TwiceScaled(a: nat, p: nat)
    ensures a * (2 * p) == 2 * (a * p)
  {
  }

  lemma DoubledHalves(x: nat, c: nat)
    ensures (2 * x + c) % 2 == c % 2 && (2 * x + c) / 2 == x + c / 2
  {
  }
}
