/**
 Variable-length integers: the reference encoding, the routines that write and read
 it, and the laws connecting them.
 */
module Varints {
  import opened Bits

  type byte = x: nat | x < 256

  const LIMIT32: nat := 0x1_0000_0000
  const LIMIT64: nat := 0x1_0000_0000_0000_0000

  // ---- reference encoding ----------------------------------------------------------

  /** Unsigned LEB128: seven bits a byte, least significant first, the high bit on all but the last. */
  function Leb(v: nat): (b: seq<byte>)
    ensures |b| > 0
  {
    if v < 128 then [v] else [v % 128 + 128] + Leb(v / 128)
  }

  /** The number that a group of bytes spells, whatever their high bits. */
  function Spelled(b: seq<byte>): nat {
    if b == [] then 0 else b[0] % 128 + 128 * Spelled(b[1..])
  }

  function Pow128(n: nat): (r: nat)
    ensures r > 0
  {
    if n == 0 then 1 else 128 * Pow128(n - 1)
  }

  /** All bytes but the last carry the high bit, the last does not. */
  predicate Terminated(b: seq<byte>) {
    |b| > 0 && b[|b| - 1] < 128 && forall i :: 0 <= i < |b| - 1 ==> b[i] >= 128
  }

  lemma {:induction false} LebTerminated(v: nat)
    ensures Terminated(Leb(v))
  {
    if v >= 128 {
      LebTerminated(v / 128);
      var b := Leb(v);
      assert b[1..] == Leb(v / 128);
      forall i | 0 <= i < |b| - 1
        ensures b[i] >= 128
      {
        if i > 0 {
          assert b[i] == Leb(v / 128)[i - 1];
        }
      }
    }
  }

  lemma {:induction false} LebSpells(v: nat)
    ensures Spelled(Leb(v)) == v
  {
    if v < 128 {
      assert Leb(v)[1..] == [];
    } else {
      LebSpells(v / 128);
      assert Leb(v)[1..] == Leb(v / 128);
    }
  }

  lemma {:induction false} SpelledBound(b: seq<byte>)
    ensures Spelled(b) < Pow128(|b|)
  {
    if b != [] {
      SpelledBound(b[1..]);
    }
  }

  lemma {:induction false} SpelledAppend(b: seq<byte>, x: byte)
    ensures Spelled(b + [x]) == Spelled(b) + Pow128(|b|) * (x % 128)
  {
    if b == [] {
      assert b + [x] == [x] && [x][1..] == [];
    } else {
      SpelledAppend(b[1..], x);
      assert (b + [x])[1..] == b[1..] + [x];
      MulAssociate(128, Pow128(|b| - 1), x % 128);
    }
  }

  /** The encoded length is the least number of seven-bit groups that hold the value. */
  lemma {:induction false} LebLength(v: nat, n: nat)
    requires n > 0
    ensures |Leb(v)| <= n <==> v < Pow128(n)
  {
    if n == 1 {
      assert Pow128(1) == 128;
    } else {
      assert Pow128(n) == 128 * Pow128(n - 1);
      if v >= 128 {
        LebLength(v / 128, n - 1);
      } else {
        assert Pow128(n - 1) >= 1;
      }
    }
  }

  lemma Lengths(v: nat)
    ensures v < LIMIT64 ==> |Leb(v)| <= 10
    ensures v < LIMIT32 ==> |Leb(v)| <= 5
  {
    Pow128Values();
    LebLength(v, 10);
    LebLength(v, 5);
  }

  lemma Pow128Values()
    ensures Pow128(2) == 16384 && Pow128(3) == 2097152 && Pow128(4) == 268435456 && Pow128(5) == 34359738368
    ensures Pow128(10) > LIMIT64
  {
    assert Pow128(5) == 34359738368;
    assert Pow128(10) == 128 * Pow128(9) && Pow128(9) == 128 * Pow128(8) && Pow128(8) == 128 * Pow128(7)
        && Pow128(7) == 128 * Pow128(6) && Pow128(6) == 128 * Pow128(5);
  }

  // ---- writing ------------------------------------------------------------------------

  lemma LowSeven(v: nat)
    ensures And(v, 127) == v % 128 && Shr(v, 7) == v / 128 && Or(v % 128, 128) == v % 128 + 128
    ensures Or(v, 128) % 256 == v % 128 + 128
  {
    Powers();
    AndMask(v, 7);
    ShrDiv(v, 7);
    ShlMul(1, 7);
    OrHigh(v % 128, 1, 7);
    OrBitSeven(v);
  }

  lemma OrBitSeven(v: nat)
    ensures Or(v, 128) % 256 == v % 128 + 128
  {
    hide Or, Shl, Shr, Pow2;
    var q, r := v / 128, v % 128;
    OrOdd(q);
    Powers();
    OrLow(v, 1, 7);
    ShlMul(1, 7);
    ShlMul(Or(q, 1), 7);
    ShrDiv(v, 7);
    OddGroup(r, Or(q, 1));
  }

  lemma OrOdd(q: nat)
    ensures Or(q, 1) % 2 == 1
  {
  }

  lemma OddGroup(r: nat, w: nat)
    requires r < 128 && w % 2 == 1
    ensures (r + w * 128) % 256 == r + 128
  {
    DivUnique(r + w * 128, 256, w / 2, r + 128);
  }

  /** Or-ing into the bits from k upwards leaves the lower ones. */
  lemma {:induction false} OrLow(x: nat, y: nat, k: nat)
    ensures Or(x, Shl(y, k)) == x % Pow2(k) + Shl(Or(Shr(x, k), y), k)
    decreases k
  {
    if k > 0 {
      OrLow(x / 2, y, k - 1);
      DivShift(x, k - 1);
      OrHalves(x, Shl(y, k));
      assert Shl(y, k) / 2 == Shl(y, k - 1);
    } else {
      assert x % Pow2(0) == 0;
    }
  }

  lemma OrHalves(x: nat, y: nat)
    ensures Or(x, y) == (if x % 2 == 1 || y % 2 == 1 then 1 else 0) + 2 * Or(x / 2, y / 2)
  {
  }

  lemma LebMoves(before: seq<byte>, w: nat)
    requires w >= 128
    ensures before + Leb(w) == (before + [w % 128 + 128]) + Leb(w / 128) && |Leb(w)| == 1 + |Leb(w / 128)|
  {
  }

  method EncodeVarint64(dst: array<byte>, at: nat, v: nat) returns (end: nat)
    requires v < LIMIT64 && at + |Leb(v)| <= dst.Length
    modifies dst
    ensures end == at + |Leb(v)| && dst[at..end] == Leb(v)
    ensures dst[..at] == old(dst[..at]) && dst[end..] == old(dst[end..])
  {
    hide Leb, Or, And, Shr;
    var ptr, w := at, v;
    while w >= 128
      invariant at <= ptr && ptr + |Leb(w)| == at + |Leb(v)|
      invariant dst[at..ptr] + Leb(w) == Leb(v)
      invariant forall k :: 0 <= k < at || ptr <= k < dst.Length ==> dst[k] == old(dst[k])
    {
      LowSeven(w);
      ghost var before := dst[at..ptr];
      LebMoves(before, w);
      dst[ptr] := Or(And(w, 127), 128);
      assert dst[at..ptr + 1] == before + [w % 128 + 128];
      ptr := ptr + 1;
      w := Shr(w, 7);
    }
    LebStep(w);
    dst[ptr] := w % 256;
    assert dst[at..ptr + 1] == dst[at..ptr] + [w];
    end := ptr + 1;
  }

  /** The five unrolled cases write the same bytes as the loop above. */
  method EncodeVarint32(dst: array<byte>, at: nat, v: nat) returns (end: nat)
    requires v < LIMIT32 && at + |Leb(v)| <= dst.Length
    modifies dst
    ensures end == at + |Leb(v)| && dst[at..end] == Leb(v)
    ensures dst[..at] == old(dst[..at]) && dst[end..] == old(dst[end..])
  {
    UnrolledBytes(v);
    if v < 0x80 {
      dst[at] := v % 256;
      end := at + 1;
    } else if v < 0x4000 {
      dst[at] := Or(v, 128) % 256;
      dst[at + 1] := Shr(v, 7) % 256;
      end := at + 2;
    } else if v < 0x20_0000 {
      dst[at] := Or(v, 128) % 256;
      dst[at + 1] := Or(Shr(v, 7), 128) % 256;
      dst[at + 2] := Shr(v, 14) % 256;
      end := at + 3;
    } else if v < 0x1000_0000 {
      dst[at] := Or(v, 128) % 256;
      dst[at + 1] := Or(Shr(v, 7), 128) % 256;
      dst[at + 2] := Or(Shr(v, 14), 128) % 256;
      dst[at + 3] := Shr(v, 21) % 256;
      end := at + 4;
    } else {
      dst[at] := Or(v, 128) % 256;
      dst[at + 1] := Or(Shr(v, 7), 128) % 256;
      dst[at + 2] := Or(Shr(v, 14), 128) % 256;
      dst[at + 3] := Or(Shr(v, 21), 128) % 256;
      dst[at + 4] := Shr(v, 28) % 256;
      end := at + 5;
    }
  }

  /** The bytes of each unrolled case. */
  lemma UnrolledBytes(v: nat)
    requires v < LIMIT32
    ensures var b0, b1, b2, b3 := Or(v, 128) % 256, Or(Shr(v, 7), 128) % 256, Or(Shr(v, 14), 128) % 256, Or(Shr(v, 21), 128) % 256;
            Leb(v) ==
              if v < 0x80 then [v % 256]
              else if v < 0x4000 then [b0, Shr(v, 7) % 256]
              else if v < 0x20_0000 then [b0, b1, Shr(v, 14) % 256]
              else if v < 0x1000_0000 then [b0, b1, b2, Shr(v, 21) % 256]
              else [b0, b1, b2, b3, Shr(v, 28) % 256]
  {
    hide Leb, Or, Shr;
    var v1 := v / 128;
    var v2 := v1 / 128;
    var v3 := v2 / 128;
    var v4 := v3 / 128;
    ShrSevens(v);
    OrBitSeven(v);
    OrBitSeven(v1);
    OrBitSeven(v2);
    OrBitSeven(v3);
    LebStep(v);
    LebStep(v1);
    LebStep(v2);
    LebStep(v3);
    LebStep(v4);
  }

  lemma LebStep(v: nat)
    ensures Leb(v) == if v < 128 then [v] else [v % 128 + 128] + Leb(v / 128)
  {
  }

  lemma {:induction false} ShrAdd(x: nat, a: nat, b: nat)
    ensures Shr(x, a + b) == Shr(Shr(x, a), b)
    decreases a
  {
    if a > 0 {
      ShrAdd(x / 2, a - 1, b);
    }
  }

  lemma ShrSevens(v: nat)
    ensures Shr(v, 7) == v / 128 && Shr(v, 14) == v / 128 / 128 && Shr(v, 21) == v / 128 / 128 / 128
    ensures Shr(v, 28) == v / 128 / 128 / 128 / 128
  {
    Powers();
    ShrDiv(v, 7);
    ShrDiv(v / 128, 7);
    ShrDiv(v / 128 / 128, 7);
    ShrDiv(v / 128 / 128 / 128, 7);
    ShrAdd(v, 7, 7);
    ShrAdd(v, 14, 7);
    ShrAdd(v, 21, 7);
  }

  method VarintLength(v: nat) returns (len: nat)
    requires v < LIMIT64
    ensures len == |Leb(v)| && 1 <= len <= 10
  {
    Lengths(v);
    len := 1;
    var w := v;
    while w >= 128
      invariant len + |Leb(w)| == 1 + |Leb(v)|
    {
      LowSeven(w);
      w := Shr(w, 7);
      len := len + 1;
    }
  }
}
