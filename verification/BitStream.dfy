/**
 Unsigned integers of up to 64 bits at any bit offset of a byte buffer.
 */
module BitStreams {
  import opened Bits
  import opened Varints

  // ---- reference view: a buffer is a row of bits --------------------------------------

  /** Bits are numbered from 0 to 7 in the first byte, 8 to 15 in the second, and so on. */
  predicate BitAt(s: seq<byte>, i: nat)
    requires i < 8 * |s|
  {
    Bit(s[i / 8], i % 8)
  }

  /** The number whose least significant bit is at `offset`. */
  function Field(s: seq<byte>, offset: nat, bits: nat): nat
    requires offset + bits <= 8 * |s|
    decreases bits
  {
    if bits == 0 then 0 else (if BitAt(s, offset) then 1 else 0) + 2 * Field(s, offset + 1, bits - 1)
  }

  /** `t` is `s` with the low `bits` bits of `value` at `offset`; every other bit is the same. */
  ghost predicate Written(s: seq<byte>, t: seq<byte>, offset: nat, bits: nat, value: nat) {
    && |t| == |s|
    && forall i: nat {:trigger BitAt(t, i)} :: i < 8 * |s| ==>
         (BitAt(t, i) <==> if offset <= i < offset + bits then Bit(value, i - offset) else BitAt(s, i))
  }

  // ---- laws ------------------------------------------------------------------------------

  lemma SameByte(x: byte, y: byte)
    requires forall i: nat :: i < 8 ==> Bit(x, i) == Bit(y, i)
    ensures x == y
  {
    Powers();
    SameBits(x, y, 8);
  }

  lemma SameBuffer(s: seq<byte>, t: seq<byte>)
    requires |s| == |t| && forall i: nat :: i < 8 * |s| ==> BitAt(s, i) == BitAt(t, i)
    ensures s == t
  {
    forall j | 0 <= j < |s|
      ensures s[j] == t[j]
    {
      forall i: nat | i < 8
        ensures Bit(s[j], i) == Bit(t[j], i)
      {
        assert BitAt(s, 8 * j + i) == BitAt(t, 8 * j + i);
      }
      SameByte(s[j], t[j]);
    }
  }

  /** What a put leaves behind is determined. */
  lemma WrittenUnique(s: seq<byte>, t: seq<byte>, u: seq<byte>, offset: nat, bits: nat, value: nat)
    requires Written(s, t, offset, bits, value) && Written(s, u, offset, bits, value)
    ensures t == u
  {
    forall i: nat | i < 8 * |s|
      ensures BitAt(t, i) == BitAt(u, i)
    {
    }
    SameBuffer(t, u);
  }

  lemma {:induction false} FieldBits(s: seq<byte>, offset: nat, bits: nat, i: nat)
    requires offset + bits <= 8 * |s|
    ensures Bit(Field(s, offset, bits), i) <==> i < bits && BitAt(s, offset + i)
    decreases bits
  {
    hide BitAt;
    if bits == 0 {
      BitZero(i);
    } else if i > 0 {
      FieldBits(s, offset + 1, bits - 1, i - 1);
    }
  }

  lemma {:induction false} FieldBound(s: seq<byte>, offset: nat, bits: nat)
    requires offset + bits <= 8 * |s|
    ensures Field(s, offset, bits) < Pow2(bits)
    decreases bits
  {
    if bits > 0 {
      FieldBound(s, offset + 1, bits - 1);
    }
  }

  /** Reading back gives the value cut to the width. */
  lemma GetAfterPut(s: seq<byte>, t: seq<byte>, offset: nat, bits: nat, value: nat)
    requires Written(s, t, offset, bits, value) && offset + bits <= 8 * |s|
    ensures Field(t, offset, bits) == value % Pow2(bits)
  {
    forall i: nat | i < bits
      ensures Bit(Field(t, offset, bits), i) == Bit(value % Pow2(bits), i)
    {
      FieldBits(t, offset, bits, i);
      BitMod(value, bits, i);
    }
    FieldBound(t, offset, bits);
    SameBits(Field(t, offset, bits), value % Pow2(bits), bits);
  }

  lemma BitKept(s: seq<byte>, t: seq<byte>, offset: nat, bits: nat, value: nat, o: nat)
    requires Written(s, t, offset, bits, value) && o < 8 * |s| && (o < offset || offset + bits <= o)
    ensures |t| == |s| && BitAt(t, o) == BitAt(s, o)
  {
  }

  /** A field outside the written range keeps its value. */
  lemma {:induction false} OtherFieldKept(s: seq<byte>, t: seq<byte>, offset: nat, bits: nat, value: nat, o: nat, n: nat)
    requires Written(s, t, offset, bits, value) && o + n <= 8 * |s|
    requires o + n <= offset || offset + bits <= o
    ensures Field(t, o, n) == Field(s, o, n)
    decreases n
  {
    hide Written, BitAt;
    if n > 0 {
      BitKept(s, t, offset, bits, value, o);
      OtherFieldKept(s, t, offset, bits, value, o + 1, n - 1);
    }
  }

  /** Puts to disjoint ranges commute. */
  lemma DisjointPutsCommute(s: seq<byte>, o: nat, n: nat, v: nat, p: nat, m: nat, w: nat,
                            a: seq<byte>, ab: seq<byte>, b: seq<byte>, ba: seq<byte>)
    requires o + n <= p || p + m <= o
    requires Written(s, a, o, n, v) && Written(a, ab, p, m, w)
    requires Written(s, b, p, m, w) && Written(b, ba, o, n, v)
    ensures ab == ba
  {
    forall i: nat | i < 8 * |s|
      ensures BitAt(ab, i) == BitAt(ba, i)
    {
      assert BitAt(a, i) <==> if o <= i < o + n then Bit(v, i - o) else BitAt(s, i);
      assert BitAt(b, i) <==> if p <= i < p + m then Bit(w, i - p) else BitAt(s, i);
    }
    SameBuffer(ab, ba);
  }

  /** Equal fields of a fixed width, packed one after the other, are an array of integers. */
  lemma PackedArray(s: seq<byte>, t: seq<byte>, width: nat, count: nat, k: nat, value: nat, j: nat)
    requires count * width <= 8 * |s| && k < count && j < count
    requires Written(s, t, k * width, width, value)
    ensures j * width + width <= count * width
    ensures Field(t, j * width, width) == if j == k then value % Pow2(width) else Field(s, j * width, width)
  {
    FieldFits(width, count, j);
    FieldFits(width, count, k);
    if j == k {
      GetAfterPut(s, t, k * width, width, value);
    } else {
      if j < k {
        FieldFits(width, k, j);
      } else {
        FieldFits(width, j, k);
      }
      OtherFieldKept(s, t, k * width, width, value, j * width, width);
    }
  }

  lemma FieldFits(width: nat, count: nat, j: nat)
    requires j < count
    ensures j * width + width <= count * width
  {
    MulDistribute(count - 1 - j, j + 1, width);
    MulDistribute(j, 1, width);
    assert (count - 1 - j) * width >= 0;
  }

  // ---- the buffer as one number ----------------------------------------------------------

  /** The number that the bytes spell, least significant byte first. */
  function Little(s: seq<byte>): nat {
    if s == [] then 0 else s[0] as int + 256 * Little(s[1..])
  }

  lemma LittleSample()
    ensures Little([0xb5, 0x01]) == 0x1b5
  {
    var s: seq<byte> := [0xb5, 0x01];
    assert s[1..] == [0x01] && s[1..][1..] == [];
  }

  lemma ByteAndRest(b: byte, n: nat)
    ensures (b as int + 256 * n) % 256 == b && (b as int + 256 * n) / 256 == n
  {
  }

  lemma LittleStep(s: seq<byte>)
    requires s != []
    ensures Little(s) % 256 == s[0] && Little(s) / 256 == Little(s[1..])
  {
    ByteAndRest(s[0], Little(s[1..]));
  }

  lemma BitAtFirst(s: seq<byte>, i: nat)
    requires s != [] && i < 8
    ensures BitAt(s, i) == Bit(s[0], i)
  {
  }

  lemma BitAtRest(s: seq<byte>, i: nat)
    requires 8 <= i < 8 * |s|
    ensures BitAt(s, i) == BitAt(s[1..], i - 8)
  {
    hide Bit;
    assert (i - 8) / 8 == i / 8 - 1 && (i - 8) % 8 == i % 8;
  }

  /** The bits of the buffer are the bits of the number. */
  lemma {:induction false} LittleBits(s: seq<byte>, i: nat)
    ensures Bit(Little(s), i) <==> i < 8 * |s| && BitAt(s, i)
    decreases |s|
  {
    if s == [] {
      BitZero(i);
    } else {
      hide Bit, Shr, Pow2, Little, BitAt;
      Powers();
      LittleStep(s);
      if i < 8 {
        BitAtFirst(s, i);
        BitMod(Little(s), 8, i);
      } else {
        LittleBits(s[1..], i - 8);
        ShrDiv(Little(s), 8);
        BitShr(Little(s), 8, i - 8);
        if i < 8 * |s| {
          BitAtRest(s, i);
        }
      }
    }
  }

  lemma {:induction false} LittleBound(s: seq<byte>)
    ensures Little(s) < Pow2(8 * |s|)
  {
    if s != [] {
      hide Pow2;
      LittleBound(s[1..]);
      Powers();
      Pow2Add(8, 8 * (|s| - 1));
      assert 8 + 8 * (|s| - 1) == 8 * |s|;
    }
  }

  /** A field is a stretch of binary digits of the number. */
  lemma FieldIsDigits(s: seq<byte>, offset: nat, bits: nat)
    requires offset + bits <= 8 * |s|
    ensures Field(s, offset, bits) == Digits(Little(s), offset, bits)
  {
    hide Bit, Field, Little, BitAt, Digits;
    FieldBound(s, offset, bits);
    DigitsBound(Little(s), offset, bits);
    forall i: nat | i < bits
      ensures Bit(Field(s, offset, bits), i) == Bit(Digits(Little(s), offset, bits), i)
    {
      FieldBits(s, offset, bits, i);
      DigitsBits(Little(s), offset, bits, i);
      LittleBits(s, offset + i);
    }
    SameBits(Field(s, offset, bits), Digits(Little(s), offset, bits), bits);
  }

  /** The binary digits of a number from one position on. */
  function Digits(x: nat, offset: nat, bits: nat): nat {
    Shr(x, offset) % Pow2(bits)
  }

  lemma DigitsBound(x: nat, offset: nat, bits: nat)
    ensures Digits(x, offset, bits) < Pow2(bits)
    ensures Digits(x, offset, bits) == x / Pow2(offset) % Pow2(bits)
  {
    hide Shr, Pow2;
    ShrDiv(x, offset);
  }

  lemma DigitsBits(x: nat, offset: nat, bits: nat, i: nat)
    ensures Bit(Digits(x, offset, bits), i) <==> i < bits && Bit(x, offset + i)
  {
    hide Shr, Pow2, Bit;
    BitMod(Shr(x, offset), bits, i);
    BitShr(x, offset, i);
  }

  /** A put replaces a stretch of binary digits of the number and keeps those below and above. */
  lemma WrittenDigits(s: seq<byte>, t: seq<byte>, offset: nat, bits: nat, value: nat)
    requires Written(s, t, offset, bits, value) && offset + bits <= 8 * |s|
    ensures Little(t) % Pow2(offset) == Little(s) % Pow2(offset)
    ensures Little(t) / Pow2(offset) % Pow2(bits) == value % Pow2(bits)
    ensures Little(t) / Pow2(offset + bits) == Little(s) / Pow2(offset + bits)
  {
    hide Bit, Field, Little, BitAt, Digits, Pow2, Shr;
    GetAfterPut(s, t, offset, bits, value);
    FieldIsDigits(t, offset, bits);
    DigitsBound(Little(t), offset, bits);
    LowDigits(s, t, offset, bits, value);
    HighDigits(s, t, offset, bits, value);
  }

  lemma LowDigits(s: seq<byte>, t: seq<byte>, offset: nat, bits: nat, value: nat)
    requires Written(s, t, offset, bits, value) && offset + bits <= 8 * |s|
    ensures Little(t) % Pow2(offset) == Little(s) % Pow2(offset)
  {
    hide Bit, Little, BitAt, Written, Pow2;
    var x, y := Little(t), Little(s);
    forall i: nat | i < offset
      ensures Bit(x % Pow2(offset), i) == Bit(y % Pow2(offset), i)
    {
      BitMod(x, offset, i);
      BitMod(y, offset, i);
      LittleBits(t, i);
      LittleBits(s, i);
      BitKept(s, t, offset, bits, value, i);
    }
    SameBits(x % Pow2(offset), y % Pow2(offset), offset);
  }

  lemma HighDigits(s: seq<byte>, t: seq<byte>, offset: nat, bits: nat, value: nat)
    requires Written(s, t, offset, bits, value) && offset + bits <= 8 * |s|
    ensures Little(t) / Pow2(offset + bits) == Little(s) / Pow2(offset + bits)
  {
    assert |t| == |s|;
    hide Bit, Little, BitAt, Written, Pow2, Shr;
    var end, k := offset + bits, 8 * |s|;
    var x, y := Shr(Little(t), end), Shr(Little(s), end);
    ShrDiv(Little(t), end);
    ShrDiv(Little(s), end);
    ShrAtMost(Little(t), end);
    ShrAtMost(Little(s), end);
    LittleBound(t);
    LittleBound(s);
    forall i: nat | i < k
      ensures Bit(x, i) == Bit(y, i)
    {
      BitShr(Little(t), end, i);
      BitShr(Little(s), end, i);
      LittleBits(t, i + end);
      LittleBits(s, i + end);
      if i + end < k {
        BitKept(s, t, offset, bits, value, i + end);
      }
    }
    SameBits(x, y, k);
  }

  // ---- one byte --------------------------------------------------------------------------

  lemma HighBits(x: nat, k: nat, i: nat)
    requires x < Pow2(k) && i >= k
    ensures !Bit(x, i)
  {
    DivUnique(x, Pow2(k), 0, x);
    BitMod(x, k, i);
  }

  lemma MaskBits(k: nat, i: nat)
    ensures Bit(Pow2(k) - 1, i) <==> i < k
  {
    if i < k {
      BitZero(i);
      BitNot(0, k, i);
    } else {
      HighBits(Pow2(k) - 1, k, i);
    }
  }

  lemma ScaledBound(x: nat, a: nat, p: nat)
    requires x < a
    ensures x * p + p <= a * p
  {
    MulDistribute(a - 1 - x, x + 1, p);
    MulDistribute(x, 1, p);
    assert (a - 1 - x) * p >= 0;
  }

  lemma ShiftedBound(x: nat, k: nat, shift: nat)
    requires x < Pow2(k) && k + shift <= 8
    ensures Shl(x, shift) < 256
  {
    ShlMul(x, shift);
    Pow2Add(k, shift);
    Pow2Monotone(k + shift, 8);
    Powers();
    hide Pow2, Shl;
    ScaledBound(x, Pow2(k), Pow2(shift));
  }

  /** The byte with k of its bits, from `shift` on, replaced by the low bits of v. */
  function Patched(old_: byte, v: nat, shift: nat, k: nat): nat
    requires k + shift <= 8
  {
    ShiftedBound(Pow2(k) - 1, k, shift);
    And(old_, 255 - Shl(Pow2(k) - 1, shift)) + Shl(And(v, Pow2(k) - 1), shift)
  }

  lemma KeptBits(old_: byte, shift: nat, k: nat, i: nat)
    requires k + shift <= 8 && i < 8
    ensures Shl(Pow2(k) - 1, shift) < 256
    ensures Bit(And(old_, 255 - Shl(Pow2(k) - 1, shift)), i) <==> Bit(old_, i) && !(shift <= i < shift + k)
  {
    hide Pow2, Shl, And, Bit;
    ShiftedBound(Pow2(k) - 1, k, shift);
    var m := Shl(Pow2(k) - 1, shift);
    BitAnd(old_, 255 - m, i);
    Powers();
    BitNot(m, 8, i);
    BitShl(Pow2(k) - 1, shift, i);
    if i >= shift {
      MaskBits(k, i - shift);
    }
  }

  lemma NewBits(v: nat, shift: nat, k: nat, i: nat)
    requires k + shift <= 8
    ensures Shl(And(v, Pow2(k) - 1), shift) < 256
    ensures Bit(Shl(And(v, Pow2(k) - 1), shift), i) <==> shift <= i < shift + k && Bit(v, i - shift)
  {
    hide Pow2, Shl, And, Bit;
    AndMask(v, k);
    ShiftedBound(v % Pow2(k), k, shift);
    BitShl(v % Pow2(k), shift, i);
    if i >= shift {
      BitMod(v, k, i - shift);
    }
  }

  lemma PatchedBits(old_: byte, v: nat, shift: nat, k: nat, i: nat)
    requires k + shift <= 8 && i < 8
    ensures Patched(old_, v, shift, k) < 256
    ensures Bit(Patched(old_, v, shift, k), i) <==> if shift <= i < shift + k then Bit(v, i - shift) else Bit(old_, i)
  {
    hide Pow2, Shl, And, Bit;
    ShiftedBound(Pow2(k) - 1, k, shift);
    var x, y := And(old_, 255 - Shl(Pow2(k) - 1, shift)), Shl(And(v, Pow2(k) - 1), shift);
    Powers();
    AndAtMost(old_, 255 - Shl(Pow2(k) - 1, shift));
    NewBits(v, shift, k, i);
    forall j: nat | j < 8
      ensures !(Bit(x, j) && Bit(y, j))
    {
      KeptBits(old_, shift, k, j);
      NewBits(v, shift, k, j);
    }
    BitSum(x, y, 8, i);
    KeptBits(old_, shift, k, i);
  }

  /** Patching one byte extends the written range. */
  lemma WriteOn(s: seq<byte>, t: seq<byte>, u: seq<byte>, offset: nat, done: nat, k: nat, value: nat, v: nat, j: nat, shift: nat)
    requires Written(s, t, offset, done, value) && j < |s| && 8 * j + shift == offset + done && k + shift <= 8
    requires forall i: nat :: i < k ==> Bit(v, i) == Bit(value, done + i)
    requires Patched(t[j], v, shift, k) < 256 && u == t[j := Patched(t[j], v, shift, k)]
    ensures Written(s, u, offset, done + k, value)
  {
    forall i: nat | i < 8 * |s|
      ensures BitAt(u, i) <==> if offset <= i < offset + (done + k) then Bit(value, i - offset) else BitAt(s, i)
    {
      assert BitAt(t, i) <==> if offset <= i < offset + done then Bit(value, i - offset) else BitAt(s, i);
      if i / 8 == j {
        PatchedBits(t[j], v, shift, k, i % 8);
        if shift <= i % 8 < shift + k {
          assert Bit(v, i % 8 - shift) == Bit(value, done + (i % 8 - shift));
        }
      }
    }
  }

  // ---- routines ----------------------------------------------------------------------------

  method BitStreamPutInt(dst: array<byte>, offset: nat, bits: nat, value: nat)
    requires (offset + bits + 7) / 8 <= dst.Length && bits <= 64 && value < LIMIT64
    modifies dst
    ensures Written(old(dst[..]), dst[..], offset, bits, value)
    ensures Little(dst[..]) % Pow2(offset) == Little(old(dst[..])) % Pow2(offset)
    ensures Little(dst[..]) / Pow2(offset) % Pow2(bits) == value % Pow2(bits)
    ensures Little(dst[..]) / Pow2(offset + bits) == Little(old(dst[..])) / Pow2(offset + bits)
  {
    hide Little, Bit, Patched, And, Shl, Pow2;
    ghost var s := dst[..];
    var byteOffset: nat, bitOffset: nat := offset / 8, offset % 8;
    var n, v := bits, value;
    ghost var done := 0;
    while n > 0
      invariant 0 <= n <= bits && done == bits - n
      invariant n > 0 ==> 8 * byteOffset + bitOffset == offset + done && bitOffset < 8
      invariant Written(s, dst[..], offset, done, value)
      invariant forall i: nat :: Bit(v, i) == Bit(value, done + i)
    {
      var k := if n < 8 - bitOffset then n else 8 - bitOffset;
      ghost var t := dst[..];
      PatchedBits(t[byteOffset], v, bitOffset, k, 0);
      WriteOn(s, t, t[byteOffset := Patched(t[byteOffset], v, bitOffset, k)], offset, done, k, value, v, byteOffset, bitOffset);
      dst[byteOffset] := Patched(dst[byteOffset], v, bitOffset, k);
      assert dst[..] == t[byteOffset := Patched(t[byteOffset], v, bitOffset, k)];
      forall i: nat
        ensures Bit(Shr(v, k), i) == Bit(value, done + k + i)
      {
        BitShr(v, k, i);
        assert Bit(v, i + k) == Bit(value, done + (i + k));
      }
      v := Shr(v, k);
      done := done + k;
      byteOffset, bitOffset, n := byteOffset + 1, 0, n - k;
    }
    WrittenDigits(s, dst[..], offset, bits, value);
  }

  lemma {:induction false} FieldSplit(s: seq<byte>, offset: nat, a: nat, b: nat)
    requires offset + a + b <= 8 * |s|
    ensures Field(s, offset, a + b) == Field(s, offset, a) + Shl(Field(s, offset + a, b), a)
    decreases a
  {
    hide BitAt;
    if a > 0 {
      FieldSplit(s, offset + 1, a - 1, b);
      assert offset + 1 + (a - 1) == offset + a && (a - 1) + b == a + b - 1;
    }
  }

  lemma FieldInByte(s: seq<byte>, j: nat, shift: nat, k: nat)
    requires j < |s| && shift + k <= 8
    ensures And(Shr(s[j], shift), Pow2(k) - 1) == Field(s, 8 * j + shift, k)
  {
    hide Pow2, Shr, And, Bit, Field;
    var x := Shr(s[j], shift);
    AndMask(x, k);
    forall i: nat | i < k
      ensures Bit(x % Pow2(k), i) == Bit(Field(s, 8 * j + shift, k), i)
    {
      BitMod(x, k, i);
      BitShr(s[j], shift, i);
      FieldBits(s, 8 * j + shift, k, i);
      assert (8 * j + shift + i) / 8 == j && (8 * j + shift + i) % 8 == i + shift;
    }
    FieldBound(s, 8 * j + shift, k);
    SameBits(x % Pow2(k), Field(s, 8 * j + shift, k), k);
  }

  method BitStreamGetInt(src: seq<byte>, offset: nat, bits: nat) returns (result: nat)
    requires (offset + bits + 7) / 8 <= |src| && bits <= 64
    ensures result == Field(src, offset, bits) && result < Pow2(bits)
    ensures result == Little(src) / Pow2(offset) % Pow2(bits)
  {
    hide Bit, And, Shl, Pow2, Field, Shr, Little, Digits;
    result := 0;
    FieldNothing(src, offset);
    var byteOffset: nat, bitOffset: nat, shift, n := offset / 8, offset % 8, 0, bits;
    while n > 0
      invariant 0 <= n <= bits && shift == bits - n
      invariant n > 0 ==> 8 * byteOffset + bitOffset == offset + shift && bitOffset < 8
      invariant result == Field(src, offset, shift)
    {
      var k := if n < 8 - bitOffset then n else 8 - bitOffset;
      NextBits(src, offset, byteOffset, bitOffset, shift, k);
      result := (result + Shl(And(Shr(src[byteOffset], bitOffset), Pow2(k) - 1), shift)) % LIMIT64;
      shift := shift + k;
      byteOffset, bitOffset, n := byteOffset + 1, 0, n - k;
    }
    FieldBound(src, offset, bits);
    FieldIsDigits(src, offset, bits);
    DigitsBound(Little(src), offset, bits);
  }

  /** One round of the read loop. */
  lemma NextBits(s: seq<byte>, offset: nat, j: nat, bit: nat, shift: nat, k: nat)
    requires j < |s| && bit + k <= 8 && 8 * j + bit == offset + shift && shift + k <= 64
    ensures (Field(s, offset, shift) + Shl(And(Shr(s[j], bit), Pow2(k) - 1), shift)) % LIMIT64 == Field(s, offset, shift + k)
  {
    hide Bit, And, Shl, Pow2, Field, Shr;
    FieldInByte(s, j, bit, k);
    FieldSplit(s, offset, shift, k);
    FieldBound(s, offset, shift + k);
    WidthBound(shift + k, 64);
    DivUnique(Field(s, offset, shift + k), LIMIT64, 0, Field(s, offset, shift + k));
  }

  lemma FieldNothing(s: seq<byte>, offset: nat)
    requires offset <= 8 * |s|
    ensures Field(s, offset, 0) == 0
  {
  }

  lemma WidthBound(k: nat, bits: nat)
    requires k <= bits <= 64
    ensures Pow2(k) <= LIMIT64
  {
    Powers();
    Pow2Monotone(k, 64);
  }

  // ---- the string form ------------------------------------------------------------------------

  /** Bytes of `t` that come from a window of `s` patched in a copy. */
  lemma WindowWritten(s: seq<byte>, t: seq<byte>, a: seq<byte>, b: seq<byte>, offset: nat, bits: nat, value: nat, used: nat)
    requires |t| == |s| && offset / 8 + used < |s| && used < |a| && used == (offset % 8 + bits) / 8
    requires Written(a, b, offset % 8, bits, value)
    requires forall j :: 0 <= j <= used ==> a[j] == s[offset / 8 + j]
    requires forall j :: 0 <= j < |s| ==> t[j] == if offset / 8 <= j <= offset / 8 + used then b[j - offset / 8] else s[j]
    ensures Written(s, t, offset, bits, value)
  {
    var first := offset / 8;
    forall i: nat | i < 8 * |s|
      ensures BitAt(t, i) <==> if offset <= i < offset + bits then Bit(value, i - offset) else BitAt(s, i)
    {
      if first <= i / 8 <= first + used {
        var k := i - 8 * first;
        assert k / 8 == i / 8 - first && k % 8 == i % 8;
        assert BitAt(b, k) <==> if offset % 8 <= k < offset % 8 + bits then Bit(value, k - offset % 8) else BitAt(a, k);
      }
    }
  }

  /**
   `dst` is a string's storage: its characters and one terminating zero.  The work is done in a
   nine-byte copy; the string ends up as the direct form would leave it, and the terminator, which
   may be copied out and back, is still zero.
   */
  method BitStreamPutIntString(dst: array<byte>, offset: nat, bits: nat, value: nat)
    requires dst.Length > 0 && dst[dst.Length - 1] == 0
    requires (offset + bits + 7) / 8 <= dst.Length - 1 && bits <= 64 && value < LIMIT64
    modifies dst
    ensures Written(old(dst[..dst.Length - 1]), dst[..dst.Length - 1], offset, bits, value)
    ensures dst[dst.Length - 1] == 0
  {
    hide Bit;
    ghost var s := dst[..];
    var tmp := new byte[9];
    var used := (offset % 8 + bits) / 8;
    for i := 0 to used + 1
      invariant forall j :: 0 <= j < i ==> tmp[j] == s[offset / 8 + j]
      invariant dst[..] == s
    {
      tmp[i] := dst[offset / 8 + i];
    }
    ghost var a := tmp[..];
    BitStreamPutInt(tmp, offset % 8, bits, value);
    ghost var b := tmp[..];
    for i := 0 to used + 1
      invariant tmp[..] == b
      invariant forall j :: 0 <= j < |s| ==> dst[j] == if offset / 8 <= j < offset / 8 + i then tmp[j - offset / 8] else s[j]
    {
      dst[offset / 8 + i] := tmp[i];
    }
    WindowWritten(s, dst[..], a, b, offset, bits, value, used);
    TerminatorKept(s, dst[..], offset, bits, value);
  }

  lemma TerminatorKept(s: seq<byte>, t: seq<byte>, offset: nat, bits: nat, value: nat)
    requires |s| > 0 && offset + bits <= 8 * (|s| - 1) && Written(s, t, offset, bits, value)
    ensures t[|s| - 1] == s[|s| - 1]
    ensures Written(s[..|s| - 1], t[..|s| - 1], offset, bits, value)
  {
    var n := |s| - 1;
    forall i: nat | i < 8
      ensures Bit(t[n], i) == Bit(s[n], i)
    {
      assert BitAt(t, 8 * n + i) == BitAt(s, 8 * n + i);
    }
    SameByte(t[n], s[n]);
    forall i: nat | i < 8 * n
      ensures BitAt(t[..n], i) <==> if offset <= i < offset + bits then Bit(value, i - offset) else BitAt(s[..n], i)
    {
      assert BitAt(t, i) == BitAt(t[..n], i) && BitAt(s, i) == BitAt(s[..n], i);
    }
  }
}
