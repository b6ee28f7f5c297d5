/**
 Reading variable-length integers back.
 */
module VarintDecoding {
  import opened Bits
  import opened Varints

  datatype Parsed = Malformed | Parsed(value: nat, size: nat)

  // ---- reference decoding -----------------------------------------------------------

  /** The length of the terminated group at the front, if it ends within `max` bytes; otherwise 0. */
  function GroupSize(b: seq<byte>, max: nat): (k: nat)
    ensures k <= |b| && k <= max
    decreases max
  {
    if b == [] || max == 0 then 0
    else if b[0] < 128 then 1
    else
      var k := GroupSize(b[1..], max - 1);
      if k == 0 then 0 else k + 1
  }

  /** What a decoder of the given width makes of the bytes: at most `max` groups, reduced modulo `modulus`. */
  function Decode(b: seq<byte>, max: nat, modulus: nat): Parsed
    requires modulus > 0
  {
    var k := GroupSize(b, max);
    if k == 0 then Malformed else Parsed(Spelled(b[..k]) % modulus, k)
  }

  function Decode64(b: seq<byte>): Parsed {
    Decode(b, 10, LIMIT64)
  }

  function Decode32(b: seq<byte>): Parsed {
    Decode(b, 5, LIMIT32)
  }

  lemma {:induction false} GroupSizeIs(b: seq<byte>, max: nat, k: nat)
    requires k <= |b| && k <= max && Terminated(b[..k])
    ensures GroupSize(b, max) == k
    decreases k
  {
    if b[0] >= 128 {
      assert k > 1;
      assert b[1..][..k - 1] == b[..k][1..];
      GroupSizeIs(b[1..], max - 1, k - 1);
    }
  }

  /** The first byte without the high bit ends the group. */
  lemma EndsHere(b: seq<byte>, max: nat, n: nat)
    requires n < |b| && n < max && b[n] < 128 && forall i :: 0 <= i < n ==> b[i] >= 128
    ensures GroupSize(b, max) == n + 1
  {
    var g := b[..n + 1];
    assert |g| == n + 1 && g[n] == b[n] && forall i :: 0 <= i < n ==> g[i] == b[i];
    GroupSizeIs(b, max, n + 1);
  }

  lemma {:induction false} GroupSizeTerminated(b: seq<byte>, max: nat)
    ensures GroupSize(b, max) > 0 ==> Terminated(b[..GroupSize(b, max)])
    ensures GroupSize(b, max) == 0 ==> forall i :: 0 <= i < |b| && i < max ==> b[i] >= 128
    decreases max
  {
    if b != [] && max > 0 && b[0] >= 128 {
      GroupSizeTerminated(b[1..], max - 1);
      var k := GroupSize(b, max);
      if k > 0 {
        assert b[..k][1..] == b[1..][..k - 1];
        assert forall i :: 1 <= i < k ==> b[..k][i] == b[1..][..k - 1][i - 1];
      } else {
        assert forall i :: 1 <= i < |b| ==> b[i] == b[1..][i - 1];
      }
    }
  }

  // ---- round trips ---------------------------------------------------------------------

  /** Decoding an encoding followed by anything gives the value back and stops exactly behind it. */
  lemma RoundTrip(v: nat, rest: seq<byte>)
    ensures v < 0x1_0000_0000_0000_0000 ==> Decode64(Leb(v) + rest) == Parsed(v, |Leb(v)|)
    ensures v < 0x1_0000_0000 ==> Decode32(Leb(v) + rest) == Parsed(v, |Leb(v)|)
  {
    hide Leb, Decode;
    Lengths(v);
    if v < LIMIT64 {
      DecodesBack(v, rest, 10, LIMIT64);
    }
    if v < LIMIT32 {
      DecodesBack(v, rest, 5, LIMIT32);
    }
  }

  lemma DecodesBack(v: nat, rest: seq<byte>, max: nat, modulus: nat)
    requires v < modulus && |Leb(v)| <= max
    ensures Decode(Leb(v) + rest, max, modulus) == Parsed(v, |Leb(v)|)
  {
    hide Leb, Spelled, GroupSize, Terminated;
    var b := Leb(v) + rest;
    assert b[..|Leb(v)|] == Leb(v);
    LebTerminated(v);
    LebSpells(v);
    GroupSizeIs(b, max, |Leb(v)|);
    DivUnique(v, modulus, 0, v);
  }

  lemma LebByte(v: nat, q: nat, r: nat)
    requires v == 128 * q + r && r < 128 && q > 0
    ensures Leb(v) == [r + 128] + Leb(q)
  {
    hide Leb;
    DivUnique(v, 128, q, r);
    LebStep(v);
  }

  /** The encodings of 300 and of 2^32 - 1. */
  lemma SampleEncodings()
    ensures Leb(300) == [0xac, 0x02] && Leb(0xffff_ffff) == [0xff, 0xff, 0xff, 0xff, 0x0f]
  {
    hide Leb;
    LebByte(300, 2, 44);
    LebStep(2);
    LebByte(0xffff_ffff, 0x1ff_ffff, 127);
    LebByte(0x1ff_ffff, 0x3_ffff, 127);
    LebByte(0x3_ffff, 0x7ff, 127);
    LebByte(0x7ff, 0x0f, 127);
    LebStep(0x0f);
  }

  /** Six groups that the 32-bit form rejects and the 64-bit form reads, and five that lose a bit. */
  lemma SampleDecodings()
    ensures Decode32([0x81, 0x82, 0x83, 0x84, 0x85, 0x11]) == Malformed
    ensures Decode64([0x81, 0x82, 0x83, 0x84, 0x85, 0x11]).Parsed?
    ensures Decode32([0xff, 0xff, 0xff, 0xff, 0x1f]) == Parsed(0xffff_ffff, 5)
  {
    hide GroupSize, Spelled;
    var b: seq<byte> := [0x81, 0x82, 0x83, 0x84, 0x85, 0x11];
    NoTerminator(b, 5);
    EndsHere(b, 10, 5);
    FiveGroups();
  }

  lemma FiveGroups()
    ensures Decode32([0xff, 0xff, 0xff, 0xff, 0x1f]) == Parsed(0xffff_ffff, 5)
  {
    var c: seq<byte> := [0xff, 0xff, 0xff, 0xff, 0x1f];
    EndsHere(c, 5, 4);
    assert c[..5] == c;
    assert c[1..] == [0xff, 0xff, 0xff, 0x1f] && c[1..][1..] == [0xff, 0xff, 0x1f] && c[1..][1..][1..] == [0xff, 0x1f]
        && c[1..][1..][1..][1..] == [0x1f] && c[1..][1..][1..][1..][1..] == [];
    assert Spelled([0x1f]) == 31 by { assert [0x1f as byte][1..] == []; }
    assert Spelled([0xff, 0x1f]) == 127 + 128 * 31;
    assert Spelled([0xff, 0xff, 0x1f]) == 127 + 128 * (127 + 128 * 31);
    assert Spelled(c) == 0x1_ffff_ffff;
    DivUnique(0x1_ffff_ffff, LIMIT32, 1, 0xffff_ffff);
  }

  /** A truncated encoding is rejected. */
  lemma TruncatedRejected(v: nat, n: nat, max: nat, modulus: nat)
    requires n < |Leb(v)| && modulus > 0
    ensures Decode(Leb(v)[..n], max, modulus) == Malformed
  {
    LebTerminated(v);
    var b := Leb(v)[..n];
    assert forall i :: 0 <= i < |b| ==> b[i] == Leb(v)[i];
    NoTerminator(b, max);
  }

  /** No encoding is a prefix of another. */
  lemma PrefixFree(v: nat, w: nat)
    requires Leb(v) <= Leb(w)
    ensures v == w
  {
    LebTerminated(v);
    LebTerminated(w);
    LebSpells(v);
    LebSpells(w);
    var n := |Leb(v)|;
    assert Leb(v)[n - 1] == Leb(w)[n - 1];
    assert n == |Leb(w)|;
  }

  /** Re-encoding what a decoder accepted is never longer than the bytes it consumed. */
  lemma ReencodingNotLonger(b: seq<byte>, max: nat, modulus: nat)
    requires modulus > 0 && Decode(b, max, modulus).Parsed?
    ensures |Leb(Decode(b, max, modulus).value)| <= Decode(b, max, modulus).size
  {
    var k := GroupSize(b, max);
    var s := Spelled(b[..k]);
    SpelledBound(b[..k]);
    ModAtMost(s, modulus);
    LebLength(s % modulus, k);
  }

  lemma ModAtMost(x: nat, m: nat)
    requires m > 0
    ensures x % m <= x
  {
    if x < m {
      DivUnique(x, m, 0, x);
    }
  }

  /** A terminated group without a superfluous zero group at its end. */
  predicate Minimal(b: seq<byte>) {
    |b| == 1 || (|b| > 1 && b[|b| - 1] != 0)
  }

  /** Minimal terminated groups are exactly the encodings. */
  lemma {:induction false} MinimalIsLeb(b: seq<byte>)
    requires Terminated(b)
    ensures b == Leb(Spelled(b)) <==> Minimal(b)
  {
    if |b| == 1 {
      assert b[1..] == [];
    } else {
      var c := b[1..];
      assert c[|c| - 1] == b[|b| - 1];
      assert forall i :: 0 <= i < |c| - 1 ==> c[i] == b[i + 1];
      MinimalIsLeb(c);
      var v := Spelled(b);
      assert v == b[0] % 128 + 128 * Spelled(c);
      assert v / 128 == Spelled(c) && v % 128 == b[0] - 128;
      if v >= 128 {
        assert Leb(v) == [b[0]] + Leb(Spelled(c));
        assert Leb(v)[1..] == Leb(Spelled(c));
        assert b == [b[0]] + c;
      } else {
        assert |Leb(v)| == 1;
        assert Spelled(c) == 0 && Leb(0) == [0];
      }
    }
  }

  /**
   The bytes a decoder consumed are the encoding of the value it returned exactly when they are
   minimal and no bit was lost in the reduction.
   */
  lemma DecodeThenEncode(b: seq<byte>, max: nat, modulus: nat)
    requires modulus > 0 && Decode(b, max, modulus).Parsed?
    ensures var Parsed(v, k) := Decode(b, max, modulus);
            b[..k] == Leb(v) <==> Minimal(b[..k]) && Spelled(b[..k]) < modulus
  {
    var Parsed(v, k) := Decode(b, max, modulus);
    var g := b[..k];
    GroupSizeTerminated(b, max);
    MinimalIsLeb(g);
    if Spelled(g) < modulus {
      DivUnique(Spelled(g), modulus, 0, Spelled(g));
    } else if g == Leb(v) {
      LebSpells(v);
    }
  }

  // ---- the decoders -----------------------------------------------------------------------

  lemma {:induction false} Pow128IsPow2(n: nat)
    ensures Pow128(n) == Pow2(7 * n)
  {
    if n > 0 {
      Pow128IsPow2(n - 1);
      Powers();
      Pow2Add(7, 7 * (n - 1));
    }
  }

  /** Truncating a shifted value keeps the low bits of the value. */
  lemma TruncatedShift(x: nat, p: nat, q: nat)
    requires p > 0 && q > 0
    ensures p * q > 0 && x * p / (p * q) == x / q && x * p % (p * q) == (x % q) * p && (x % q) * p + p <= p * q
  {
    var k, r := x / q, x % q;
    assert x == k * q + r;
    MulDistribute(k * q, r, p);
    MulAssociate(k, q, p);
    MulDistribute(q - 1 - r, r + 1, p);
    MulDistribute(r, 1, p);
    NonNegativeProduct(q - 1 - r, p);
    assert q * p == p * q;
    DivUnique(x * p, p * q, k, r * p);
  }

  lemma NonNegativeProduct(a: nat, b: nat)
    ensures a * b >= 0
  {
  }

  /** Or-ing a shifted, truncated group into the empty high bits is addition modulo the width. */
  lemma OrGroup(result: nat, x: nat, shift: nat, width: nat)
    requires result < Pow2(shift) && shift <= width
    ensures Or(result, Shl(x, shift) % Pow2(width)) == (result + x * Pow2(shift)) % Pow2(width)
  {
    hide Or, Shl, Pow2;
    var p, q := Pow2(shift), Pow2(width - shift);
    Pow2Add(shift, width - shift);
    ShlMul(x, shift);
    TruncatedShift(x, p, q);
    ShlMul(x % q, shift);
    OrHigh(result, x % q, shift);
    DivUnique(result + x * p, p * q, x / q, result + (x % q) * p);
  }

  lemma HighBit(b: byte)
    ensures And(b, 128) != 0 <==> b >= 128
    ensures And(b, 127) == b % 128
  {
    hide And;
    Powers();
    AndMask(b, 7);
    if b < 128 {
      AndHigh(b);
    } else {
      AndHighSet(b);
    }
  }

  lemma AndHighSet(b: byte)
    requires b >= 128
    ensures And(b, 128) != 0
  {
    hide And, Bit, Shl, Shr, Pow2;
    Powers();
    ShlMul(1, 7);
    BitShl(1, 7, 7);
    BitOne(0);
    BitShr(b, 7, 0);
    ShrDiv(b, 7);
    BitOne(b / 128);
    BitAnd(b, 128, 7);
    BitZero(7);
  }

  lemma AndHigh(b: byte)
    requires b < 128
    ensures And(b, 128) == 0
  {
    forall i: nat | i < 8
      ensures Bit(And(b, 128), i) == Bit(0, i)
    {
      BitAnd(b, 128, i);
      BitZero(i);
      ShlMul(1, 7);
      Powers();
      BitShl(1, 7, i);
      if i == 7 {
        BitShr(b, 7, 0);
        ShrDiv(b, 7);
      } else {
        BitOne(7 - i);
      }
    }
    Powers();
    AndAtMost(b, 128);
    SameBits(And(b, 128), 0, 8);
  }

  lemma BitOne(i: nat)
    ensures Bit(1, i) <==> i == 0
  {
    if i > 0 {
      BitZero(i - 1);
    }
  }

  /** One round of a decoder loop that has read `g` so far. */
  lemma ReadGroup(g: seq<byte>, b: byte, width: nat)
    requires 7 * |g| <= width
    ensures Or(Spelled(g), Shl(b % 128, 7 * |g|) % Pow2(width)) == Spelled(g + [b]) % Pow2(width)
    ensures 7 * (|g| + 1) <= width ==> Spelled(g + [b]) < Pow2(width)
  {
    SpelledBound(g);
    Pow128IsPow2(|g|);
    OrGroup(Spelled(g), b % 128, 7 * |g|, width);
    SpelledAppend(g, b);
    if 7 * (|g| + 1) <= width {
      SpelledBound(g + [b]);
      Pow128IsPow2(|g| + 1);
      Pow2Monotone(7 * (|g| + 1), width);
    }
  }

  lemma SpelledNothing()
    ensures Spelled([]) == 0
  {
  }

  /** What a decoding of the bytes between two positions says about the bytes. */
  lemma DecodedBytes(buf: seq<byte>, p: nat, limit: nat, max: nat, modulus: nat)
    requires p <= limit <= |buf| && modulus > 0
    ensures var r := Decode(buf[p..limit], max, modulus);
            && (r.Malformed? <==> forall i :: p <= i < limit && i < p + max ==> buf[i] >= 128)
            && (r.Parsed? ==> 1 <= r.size <= max && p + r.size <= limit && buf[p + r.size - 1] < 128
                              && (forall i :: p <= i < p + r.size - 1 ==> buf[i] >= 128)
                              && r.value == Spelled(buf[p..p + r.size]) % modulus)
  {
    hide Spelled, GroupSize;
    var b := buf[p..limit];
    GroupSizeTerminated(b, max);
    var k := GroupSize(b, max);
    assert forall i :: p <= i < limit ==> buf[i] == b[i - p];
    if k > 0 {
      var g := b[..k];
      assert g == buf[p..p + k];
      assert b[k - 1] == g[k - 1] && forall i :: 0 <= i < k - 1 ==> b[i] == g[i];
      assert buf[p + k - 1] < 128;
    }
  }

  method GetVarint64Ptr(buf: seq<byte>, p: nat, limit: nat) returns (r: Parsed)
    requires p <= limit <= |buf|
    ensures r == Decode64(buf[p..limit])
    ensures r.Malformed? <==> forall i :: p <= i < limit && i < p + 10 ==> buf[i] >= 128
    ensures r.Parsed? ==> 1 <= r.size <= 10 && p + r.size <= limit && buf[p + r.size - 1] < 128
                          && (forall i :: p <= i < p + r.size - 1 ==> buf[i] >= 128)
                          && r.value == Spelled(buf[p..p + r.size]) % 0x1_0000_0000_0000_0000
  {
    hide And, Or, Shl, Spelled, Pow2, GroupSize;
    ghost var b := buf[p..limit];
    DecodedBytes(buf, p, limit, 10, LIMIT64);
    Powers();
    SpelledNothing();
    var result, shift, q := 0, 0, p;
    while shift <= 63 && q < limit
      invariant p <= q <= limit && shift == 7 * (q - p) && shift <= 70
      invariant shift <= 63 ==> result == Spelled(b[..q - p])
      invariant forall i :: 0 <= i < q - p ==> b[i] >= 128
      decreases limit - q
    {
      var x := buf[q];
      ghost var g := b[..q - p];
      assert b[..q - p + 1] == g + [x];
      ReadGroup(g, x, 64);
      HighBit(x);
      q := q + 1;
      if And(x, 128) != 0 {
        result := Or(result, Shl(And(x, 127), shift) % LIMIT64);
        if shift <= 56 {
          DivUnique(Spelled(g + [x]), LIMIT64, 0, Spelled(g + [x]));
        }
      } else {
        result := Or(result, Shl(x, shift) % LIMIT64);
        EndsHere(b, 10, q - p - 1);
        return Parsed(result, q - p);
      }
      shift := shift + 7;
    }
    NoTerminator(b, 10);
    return Malformed;
  }

  lemma NoTerminator(b: seq<byte>, max: nat)
    requires forall i :: 0 <= i < |b| && i < max ==> b[i] >= 128
    ensures GroupSize(b, max) == 0
  {
    GroupSizeTerminated(b, max);
  }

  method GetVarint32PtrFallback(buf: seq<byte>, p: nat, limit: nat) returns (r: Parsed)
    requires p <= limit <= |buf|
    ensures r == Decode32(buf[p..limit])
    ensures r.Malformed? <==> forall i :: p <= i < limit && i < p + 5 ==> buf[i] >= 128
    ensures r.Parsed? ==> 1 <= r.size <= 5 && p + r.size <= limit && buf[p + r.size - 1] < 128
                          && (forall i :: p <= i < p + r.size - 1 ==> buf[i] >= 128)
                          && r.value == Spelled(buf[p..p + r.size]) % 0x1_0000_0000
  {
    hide And, Or, Shl, Spelled, Pow2, GroupSize;
    ghost var b := buf[p..limit];
    DecodedBytes(buf, p, limit, 5, LIMIT32);
    Powers();
    SpelledNothing();
    var result, shift, q := 0, 0, p;
    while shift <= 28 && q < limit
      invariant p <= q <= limit && shift == 7 * (q - p) && shift <= 35
      invariant shift <= 28 ==> result == Spelled(b[..q - p])
      invariant forall i :: 0 <= i < q - p ==> b[i] >= 128
      decreases limit - q
    {
      var x := buf[q];
      ghost var g := b[..q - p];
      assert b[..q - p + 1] == g + [x];
      ReadGroup(g, x, 32);
      HighBit(x);
      q := q + 1;
      if And(x, 128) != 0 {
        result := Or(result, Shl(And(x, 127), shift) % LIMIT32);
        if shift <= 21 {
          DivUnique(Spelled(g + [x]), LIMIT32, 0, Spelled(g + [x]));
        }
      } else {
        result := Or(result, Shl(x, shift) % LIMIT32);
        EndsHere(b, 5, q - p - 1);
        return Parsed(result, q - p);
      }
      shift := shift + 7;
    }
    NoTerminator(b, 5);
    return Malformed;
  }

  lemma DecodedBytes32(buf: seq<byte>, p: nat, limit: nat)
    requires p <= limit <= |buf|
    ensures var r := Decode32(buf[p..limit]);
            && (r.Malformed? <==> forall i :: p <= i < limit && i < p + 5 ==> buf[i] >= 128)
            && (r.Parsed? ==> 1 <= r.size <= 5 && p + r.size <= limit && buf[p + r.size - 1] < 128
                              && (forall i :: p <= i < p + r.size - 1 ==> buf[i] >= 128)
                              && r.value == Spelled(buf[p..p + r.size]) % 0x1_0000_0000)
  {
    hide Spelled, GroupSize, Decode;
    DecodedBytes(buf, p, limit, 5, LIMIT32);
  }

  lemma OneByte(b: seq<byte>)
    requires |b| > 0 && b[0] < 128
    ensures Decode32(b) == Parsed(b[0], 1)
  {
    EndsHere(b, 5, 0);
    assert b[..1] == [b[0]] && [b[0]][1..] == [];
    assert Spelled([b[0]]) == b[0];
    hide Spelled, GroupSize;
    DivUnique(b[0], LIMIT32, 0, b[0]);
  }

  /** The inline fast path for a single byte agrees with the loop. */
  method GetVarint32Ptr(buf: seq<byte>, p: nat, limit: nat) returns (r: Parsed)
    requires p <= limit <= |buf|
    ensures r == Decode32(buf[p..limit])
    ensures r.Malformed? <==> forall i :: p <= i < limit && i < p + 5 ==> buf[i] >= 128
    ensures r.Parsed? ==> 1 <= r.size <= 5 && p + r.size <= limit && buf[p + r.size - 1] < 128
                          && (forall i :: p <= i < p + r.size - 1 ==> buf[i] >= 128)
                          && r.value == Spelled(buf[p..p + r.size]) % 0x1_0000_0000
  {
    hide And, Decode32, Spelled;
    DecodedBytes32(buf, p, limit);
    if p < limit {
      var result := buf[p];
      HighBit(result);
      if And(result, 128) == 0 {
        OneByte(buf[p..limit]);
        return Parsed(result, 1);
      }
    }
    r := GetVarint32PtrFallback(buf, p, limit);
  }
}
