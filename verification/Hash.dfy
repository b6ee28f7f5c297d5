/**
 The hash function: for every byte string it permutes the seeds, and inputs that differ
 only in one aligned four-byte word, or only in the tail, never collide.
 */
module Hashing {
  import opened Bits
  import opened Varints

  /** A 32-bit unsigned integer. */
  type word = x: nat | x < 0x1_0000_0000

  // ---- reference: integers and remainders ---------------------------------------------------

  /** The value of a `char`; whether it is signed depends on the platform. */
  function Char(b: byte, signed: bool): int {
    if signed && b >= 128 then b as int - 256 else b as int
  }

  /** Four bytes, least significant first. */
  function Number(b: seq<byte>): (n: nat)
    requires |b| == 4
    ensures n < 0x1_0000_0000
  {
    b[0] as int + 0x100 * b[1] as int + 0x1_0000 * b[2] as int + 0x100_0000 * b[3] as int
  }

  /** One to three left-over characters, least significant first. */
  function Rest(t: seq<byte>, signed: bool): int
    requires 1 <= |t| <= 3
  {
    Char(t[0], signed)
    + 0x100 * (if |t| >= 2 then Char(t[1], signed) else 0)
    + 0x1_0000 * (if |t| == 3 then Char(t[2], signed) else 0)
  }

  /** Add, multiply, and fold the high bits down. */
  function Round(h: word, t: int, k: nat): (r: word)
    requires 16 <= k <= 32
  {
    var y := Scaled(h + t);
    FoldBound(y, k);
    Fold(y, k)
  }

  function Scaled(z: int): word {
    z * 0xc6a4a793 % 0x1_0000_0000
  }

  function Fold(y: nat, k: nat): nat {
    Xor(y, Shr(y, k))
  }

  function Absorb(data: seq<byte>, h: word, signed: bool): word
    decreases |data|
  {
    if |data| >= 4 then Absorb(data[4..], Round(h, Number(data[..4]), 16), signed)
    else if |data| > 0 then Round(h, Rest(data, signed), 24)
    else h
  }

  function Start(n: nat, seed: word): (h: word) {
    WordXor(seed, Scaled(n));
    Xor(seed, Scaled(n))
  }

  function HashOf(data: seq<byte>, seed: word, signed: bool): word {
    Absorb(data, Start(|data|, seed), signed)
  }

  lemma WordXor(x: word, y: word)
    ensures Xor(x, y) < 0x1_0000_0000
  {
    hide Xor;
    Powers();
    XorBound(x, y, 32);
  }

  lemma FoldBound(y: word, k: nat)
    ensures Fold(y, k) < 0x1_0000_0000
  {
    hide Xor, Shr;
    ShrAtMost(y, k);
    WordXor(y, Shr(y, k));
  }

  // ---- what the hash is, in literals -------------------------------------------------------------

  /** The hash of nothing is the seed. */
  lemma HashOfNothing(seed: word, signed: bool)
    ensures HashOf([], seed, signed) == seed
  {
    assert Scaled(0) == 0;
    XorZero(seed);
  }

  lemma XorZero(x: nat)
    ensures Xor(x, 0) == x
  {
  }

  /** The length is mixed into the seed. */
  lemma LengthMixed(data: seq<byte>, seed: word, signed: bool)
    ensures Xor(seed, |data| * 0xc6a4a793 % 0x1_0000_0000) < 0x1_0000_0000
    ensures HashOf(data, seed, signed) == Absorb(data, Xor(seed, |data| * 0xc6a4a793 % 0x1_0000_0000), signed)
  {
    hide Absorb, Xor;
    WordXor(seed, Scaled(|data|));
  }

  /** Four bytes are absorbed as one little-endian number. */
  lemma WordAbsorbed(data: seq<byte>, h: word, signed: bool)
    requires |data| >= 4
    ensures var y := (h + data[0] as int + 0x100 * data[1] as int + 0x1_0000 * data[2] as int + 0x100_0000 * data[3] as int) * 0xc6a4a793 % 0x1_0000_0000;
            Xor(y, y / 0x1_0000) < 0x1_0000_0000 && Absorb(data, h, signed) == Absorb(data[4..], Xor(y, y / 0x1_0000), signed)
  {
    hide Xor, Shr;
    Powers();
    var y := Scaled(h + Number(data[..4]));
    FoldBound(y, 16);
    ShrDiv(y, 16);
  }

  /** Left-over characters are absorbed as one number, in which a signed character may be negative. */
  lemma TailAbsorbed(t: seq<byte>, h: word, signed: bool)
    requires 1 <= |t| <= 3
    ensures var a: int := if signed && t[0] >= 128 then t[0] as int - 256 else t[0] as int;
            var b: int := if |t| < 2 then 0 else if signed && t[1] >= 128 then t[1] as int - 256 else t[1] as int;
            var c: int := if |t| < 3 then 0 else if signed && t[2] >= 128 then t[2] as int - 256 else t[2] as int;
            var y := (h + a + 0x100 * b + 0x1_0000 * c) * 0xc6a4a793 % 0x1_0000_0000;
            Absorb(t, h, signed) == Xor(y, y / 0x100_0000)
  {
    hide Xor, Shr;
    Powers();
    ShrDiv(Scaled(h + Rest(t, signed)), 24);
  }

  /** The hash of one zero byte under seed 0, and of the bytes 1, 2, 3, 4. */
  lemma SampleHashes(signed: bool)
    ensures HashOf([0], 0, signed) == 0x8609_1eef && HashOf([1, 2, 3, 4], 0, signed) == 0x6ad1_2de6
  {
    hide Absorb, Xor;
    LengthMixed([0], 0, signed);
    TailAbsorbed([0], 0xc6a4_a793, signed);
    DivUnique(1 * 0xc6a4_a793, 0x1_0000_0000, 0, 0xc6a4_a793);
    XorFromZero(0xc6a4_a793);
    DivUnique(0xc6a4_a793 * 0xc6a4_a793, 0x1_0000_0000, 2585992478, 0x8609_1e69);
    DivUnique(0x8609_1e69, 0x100_0000, 0x86, 0x9_1e69);
    SampleXors();

    LengthMixed([1, 2, 3, 4], 0, signed);
    DivUnique(4 * 0xc6a4_a793, 0x1_0000_0000, 3, 0x1a92_9e4c);
    XorFromZero(0x1a92_9e4c);
    WordAbsorbed([1, 2, 3, 4], 0x1a92_9e4c, signed);
    DivUnique(0x1e95_a04d * 0xc6a4_a793, 0x1_0000_0000, 398157275, 0x6ad1_4737);
    DivUnique(0x6ad1_4737, 0x1_0000, 0x6ad1, 0x4737);
    NothingLeft([1, 2, 3, 4], 0x6ad1_2de6, signed);
  }

  lemma NothingLeft(data: seq<byte>, h: word, signed: bool)
    requires |data| == 4
    ensures Absorb(data[4..], h, signed) == h
  {
    assert data[4..] == [];
  }

  lemma XorFromZero(x: nat)
    ensures Xor(0, x) == x
  {
  }

  lemma SampleXors()
    ensures Xor(0x8609_1e69, 0x86) == 0x8609_1eef && Xor(0x6ad1_4737, 0x6ad1) == 0x6ad1_2de6
  {
    hide Xor;
    SmallXors();
    Powers();
    XorSplit(0x8609_1e, 0, 0x69, 0x86, 8);
    XorZero(0x8609_1e);
    XorSplit(0x6ad147, 0x6a, 0x37, 0xd1, 8);
    XorSplit(0x6ad1, 0, 0x47, 0x6a, 8);
    XorZero(0x6ad1);
  }

  lemma XorStep(x: nat, y: nat, a: nat, b: nat, p: nat, q: nat)
    requires x == 2 * a + p && y == 2 * b + q && p < 2 && q < 2
    ensures Xor(x, y) == (if p != q then 1 else 0) + 2 * Xor(a, b)
  {
    hide Xor;
    XorHalves(x, y);
  }

  lemma SmallXors()
    ensures Xor(0x69, 0x86) == 0xef && Xor(0x37, 0xd1) == 0xe6 && Xor(0x47, 0x6a) == 0x2d
  {
    hide Xor;
    XorZero(0);
    XorStep(105, 134, 52, 67, 1, 0);
    XorStep(52, 67, 26, 33, 0, 1);
    XorStep(26, 33, 13, 16, 0, 1);
    XorStep(13, 16, 6, 8, 1, 0);
    XorStep(6, 8, 3, 4, 0, 0);
    XorStep(3, 4, 1, 2, 1, 0);
    XorStep(1, 2, 0, 1, 1, 0);
    XorStep(0, 1, 0, 0, 0, 1);
    XorStep(55, 209, 27, 104, 1, 1);
    XorStep(27, 104, 13, 52, 1, 0);
    XorStep(13, 52, 6, 26, 1, 0);
    XorStep(6, 26, 3, 13, 0, 0);
    XorStep(3, 13, 1, 6, 1, 1);
    XorStep(1, 6, 0, 3, 1, 0);
    XorStep(0, 3, 0, 1, 0, 1);
    XorStep(0, 1, 0, 0, 0, 1);
    XorStep(71, 106, 35, 53, 1, 0);
    XorStep(35, 53, 17, 26, 1, 1);
    XorStep(17, 26, 8, 13, 1, 0);
    XorStep(8, 13, 4, 6, 0, 1);
    XorStep(4, 6, 2, 3, 0, 0);
    XorStep(2, 3, 1, 1, 0, 1);
    XorStep(1, 1, 0, 0, 1, 1);
  }

  // ---- the routine: 32-bit operations --------------------------------------------------------------

  /** What `DecodeFixed32` reads. */
  function Loaded(a: byte, b: byte, c: byte, d: byte): nat {
    Or(Or(Or(a, Shl(b, 8)), Shl(c, 16)), Shl(d, 24))
  }

  lemma LoadedIs(a: byte, b: byte, c: byte, d: byte)
    ensures Loaded(a, b, c, d) == a as int + 0x100 * b as int + 0x1_0000 * c as int + 0x100_0000 * d as int
  {
    hide Or, Shl;
    Powers();
    ShlMul(b, 8);
    ShlMul(c, 16);
    ShlMul(d, 24);
    OrHigh(a, b, 8);
    OrHigh(a as int + 0x100 * b as int, c, 16);
    OrHigh(a as int + 0x100 * b as int + 0x1_0000 * c as int, d, 24);
  }

  /** 32-bit arithmetic wraps around. */
  function Wrap(z: int): word {
    z % 0x1_0000_0000
  }

  /** A `char` converted to 32 unsigned bits. */
  function Promoted(b: byte, signed: bool): word {
    if signed && b >= 128 then b as int + 0xffff_ff00 else b
  }

  method Hash(data: seq<byte>, seed: word, signed: bool) returns (h: word)
    ensures h == HashOf(data, seed, signed)
  {
    hide Absorb, Xor, Shl, Shr, Round, Start, Wrap, Loaded, Promoted;
    StartIs(|data|, seed);
    h := Xor(seed, Wrap(|data| * 0xc6a4a793));
    var i := 0;
    assert data[0..] == data;
    while i + 4 <= |data|
      invariant i <= |data|
      invariant Absorb(data[i..], h, signed) == HashOf(data, seed, signed)
    {
      ghost var rest := data[i..];
      WordRound(rest, h, signed);
      assert rest[4..] == data[i + 4..];
      var w := Loaded(data[i], data[i + 1], data[i + 2], data[i + 3]);
      h := Wrap(h + w);
      h := Wrap(h * 0xc6a4a793);
      h := Xor(h, Shr(h, 16));
      i := i + 4;
    }
    ghost var rest := data[i..];
    var n := |data| - i;
    if n > 0 {
      TailRound(rest, h, signed);
      if n == 3 {
        h := Wrap(h + Wrap(Shl(Promoted(data[i + 2], signed), 16)));
      }
      if n >= 2 {
        h := Wrap(h + Wrap(Shl(Promoted(data[i + 1], signed), 8)));
      }
      h := Wrap(h + Promoted(data[i], signed));
      h := Wrap(h * 0xc6a4a793);
      h := Xor(h, Shr(h, 24));
    } else {
      AbsorbNothing(rest, h, signed);
    }
  }

  lemma StartIs(n: nat, seed: word)
    ensures Xor(seed, Wrap(n * 0xc6a4a793)) == Start(n, seed)
  {
    hide Xor;
  }

  lemma AbsorbNothing(data: seq<byte>, h: word, signed: bool)
    requires data == []
    ensures Absorb(data, h, signed) == h
  {
  }

  /** Reducing before the multiplication changes nothing. */
  lemma ScaledStep(z: int)
    ensures Wrap(Wrap(z) * 0xc6a4a793) == Scaled(z)
  {
    var q := z / 0x1_0000_0000;
    assert (z % 0x1_0000_0000) * 0xc6a4a793 == z * 0xc6a4a793 + (-q * 0xc6a4a793) * 0x1_0000_0000;
    DropMultiple(z * 0xc6a4a793, -q * 0xc6a4a793);
  }

  lemma WordRound(data: seq<byte>, h: word, signed: bool)
    requires |data| >= 4
    ensures var y := Wrap(Wrap(h + Loaded(data[0], data[1], data[2], data[3])) * 0xc6a4a793);
            Xor(y, Shr(y, 16)) < 0x1_0000_0000 && Absorb(data, h, signed) == Absorb(data[4..], Xor(y, Shr(y, 16)), signed)
  {
    hide Xor, Shr, Loaded, Wrap, Scaled;
    Powers();
    LoadedIs(data[0], data[1], data[2], data[3]);
    var z := h + Number(data[..4]);
    ScaledStep(z);
    ShrDiv(Scaled(z), 16);
    FoldBound(Scaled(z), 16);
  }

  lemma TailRound(t: seq<byte>, h: word, signed: bool)
    requires 1 <= |t| <= 3
    ensures var h2 := if |t| == 3 then Wrap(h + Wrap(Shl(Promoted(t[2], signed), 16))) else h;
            var h1 := if |t| >= 2 then Wrap(h2 + Wrap(Shl(Promoted(t[1], signed), 8))) else h2;
            var y := Wrap(Wrap(h1 + Promoted(t[0], signed)) * 0xc6a4a793);
            Xor(y, Shr(y, 24)) == Absorb(t, h, signed) < 0x1_0000_0000
  {
    hide Xor, Shr, Shl, Scaled, Wrap, Promoted, Rest, Pow2, Fold;
    FoldIs(Scaled(h + Rest(t, signed)), 24);
    Powers();
    if |t| == 3 {
      ShlMul(Promoted(t[2], signed), 16);
    }
    if |t| >= 2 {
      ShlMul(Promoted(t[1], signed), 8);
    }
    var z := h + Rest(t, signed);
    SwitchSum(h, t, signed);
    ScaledStep(z);
    FoldBound(Scaled(z), 24);
  }

  lemma FoldIs(y: nat, k: nat)
    ensures Fold(y, k) == Xor(y, Shr(y, k))
  {
  }

  /** Adding the converted characters one after the other adds their values, modulo 2^32. */
  lemma SwitchSum(h: word, t: seq<byte>, signed: bool)
    requires 1 <= |t| <= 3
    ensures var h2 := if |t| == 3 then Wrap(h + Wrap(Promoted(t[2], signed) * 0x1_0000)) else h;
            var h1 := if |t| >= 2 then Wrap(h2 + Wrap(Promoted(t[1], signed) * 0x100)) else h2;
            Wrap(h1 + Promoted(t[0], signed)) == Wrap(h + Rest(t, signed))
  {
    hide Promoted, Char, Wrap;
    WrapWord(h);
    var c := if |t| == 3 then Char(t[2], signed) else 0;
    var b := if |t| >= 2 then Char(t[1], signed) else 0;
    if |t| == 3 {
      AddChar(h, t[2], signed, 0x1_0000);
    }
    var h2 := Wrap(h + c * 0x1_0000);
    if |t| >= 2 {
      AddChar(h2, t[1], signed, 0x100);
    }
    WrapWord(h2);
    var h1 := Wrap(h2 + b * 0x100);
    AddLast(h1, t[0], signed);
    AddMod(h + c * 0x1_0000, b * 0x100);
    AddMod(h + c * 0x1_0000 + b * 0x100, Char(t[0], signed));
  }

  lemma WrapWord(h: word)
    ensures Wrap(h) == h
  {
  }

  /** A converted character stands for its value modulo 2^32. */
  lemma AddChar(h: word, b: byte, signed: bool, scale: nat)
    requires scale == 0x100 || scale == 0x1_0000
    ensures Wrap(h + Wrap(Promoted(b, signed) * scale)) == Wrap(h + Char(b, signed) * scale)
  {
    var x, y := Promoted(b, signed) * scale, Char(b, signed) * scale;
    AddMod(x, h);
    if signed && b >= 128 {
      assert x == y + scale * 0x1_0000_0000;
      DropMultiple(h + y, scale);
    }
  }

  lemma AddLast(h: word, b: byte, signed: bool)
    ensures Wrap(h + Promoted(b, signed)) == Wrap(h + Char(b, signed))
  {
    DropMultiple(h + Char(b, signed), 1);
  }

  lemma AddMod(a: int, b: int)
    ensures Wrap(Wrap(a) + b) == Wrap(a + b)
  {
    var q := a / 0x1_0000_0000;
    assert a % 0x1_0000_0000 + b == (a + b) + (-q) * 0x1_0000_0000;
    DropMultiple(a + b, -q);
  }

  // ---- inverses ------------------------------------------------------------------------------------

  /** Multiplying by 0xd8198e9b undoes the multiplication. */
  lemma Unscale(z: int)
    ensures Scaled(z) * 0xd8198e9b % 0x1_0000_0000 == z % 0x1_0000_0000
  {
    var p := z * 0xc6a4a793;
    var q, r := p / 0x1_0000_0000, p % 0x1_0000_0000;
    assert p == q * 0x1_0000_0000 + r;
    assert r * 0xd8198e9b == z + (z * 2813248032 - q * 0xd8198e9b) * 0x1_0000_0000;
    DropMultiple(z, z * 2813248032 - q * 0xd8198e9b);
  }

  lemma Rescale(y: word)
    ensures Scaled(y * 0xd8198e9b) == y
  {
    assert y * 0xd8198e9b * 0xc6a4a793 == y + (y * 2813248032) * 0x1_0000_0000;
    DropMultiple(y, y * 2813248032);
  }

  lemma DropMultiple(z: int, k: int)
    ensures (z + k * 0x1_0000_0000) % 0x1_0000_0000 == z % 0x1_0000_0000
  {
  }

  lemma FoldTwice(y: word, k: nat)
    requires 16 <= k <= 32
    ensures Fold(y, k) < 0x1_0000_0000 && Fold(Fold(y, k), k) == y
  {
    hide Xor, Bit, Pow2, Shr, Fold;
    Powers();
    FoldBound(y, k);
    FoldBound(Fold(y, k), k);
    forall i: nat | i < 32
      ensures Bit(Fold(Fold(y, k), k), i) == Bit(y, i)
    {
      FoldBit(y, k, i);
      FoldBit(y, k, i + k);
      FoldBit(Fold(y, k), k, i);
      HighClear(y, i + k + k);
    }
    SameBits(Fold(Fold(y, k), k), y, 32);
  }

  lemma FoldBit(y: nat, k: nat, i: nat)
    ensures Bit(Fold(y, k), i) <==> Bit(y, i) != Bit(y, i + k)
  {
    hide Xor, Bit, Shr;
    BitShr(y, k, i);
    BitXor(y, Shr(y, k), i);
  }

  lemma HighClear(y: word, i: nat)
    requires i >= 32
    ensures !Bit(y, i)
  {
    hide Bit, Pow2;
    Powers();
    DivUnique(y, 0x1_0000_0000, 0, y);
    BitMod(y, 32, i);
  }

  function Unround(g: word, t: int, k: nat): (h: word) {
    (Fold(g, k) * 0xd8198e9b - t) % 0x1_0000_0000
  }

  lemma RoundInverse(h: word, t: int, k: nat)
    requires 16 <= k <= 32
    ensures Unround(Round(h, t, k), t, k) == h && Round(Unround(h, t, k), t, k) == h
  {
    hide Fold, Scaled;
    FoldTwice(Scaled(h + t), k);
    Unscale(h + t);
    TakeAway(Scaled(h + t) * 0xd8198e9b, h, t);
    FoldTwice(h, k);
    var x := Fold(h, k) * 0xd8198e9b;
    Rescale(Fold(h, k));
    PutBack(x, t);
  }

  lemma TakeAway(x: int, h: word, t: int)
    requires x % 0x1_0000_0000 == (h + t) % 0x1_0000_0000
    ensures (x - t) % 0x1_0000_0000 == h
  {
  }

  lemma PutBack(x: int, t: int)
    ensures Scaled((x - t) % 0x1_0000_0000 + t) == Scaled(x)
  {
    var z := x - t;
    var q := z / 0x1_0000_0000;
    assert z % 0x1_0000_0000 + t == x - q * 0x1_0000_0000;
    assert (x - q * 0x1_0000_0000) * 0xc6a4a793 == x * 0xc6a4a793 + (-q * 0xc6a4a793) * 0x1_0000_0000;
    DropMultiple(x * 0xc6a4a793, -q * 0xc6a4a793);
  }

  /** Different numbers give different states, unless they differ by a multiple of 2^32. */
  lemma RoundInjective(h: word, s: int, t: int, k: nat)
    requires 16 <= k <= 32 && Round(h, s, k) == Round(h, t, k)
    ensures (s - t) % 0x1_0000_0000 == 0
  {
    hide Fold, Scaled;
    FoldTwice(Scaled(h + s), k);
    FoldTwice(Scaled(h + t), k);
    Unscale(h + s);
    Unscale(h + t);
  }

  function Unabsorb(data: seq<byte>, h: word, signed: bool): word
    decreases |data|
  {
    if |data| >= 4 then Unround(Unabsorb(data[4..], h, signed), Number(data[..4]), 16)
    else if |data| > 0 then Unround(h, Rest(data, signed), 24)
    else h
  }

  /** Absorbing is undone by Unabsorb, in both directions. */
  lemma {:induction false} AbsorbInverse(data: seq<byte>, h: word, signed: bool)
    ensures Unabsorb(data, Absorb(data, h, signed), signed) == h
    ensures Absorb(data, Unabsorb(data, h, signed), signed) == h
    decreases |data|
  {
    hide Round, Unround, Number, Rest;
    if |data| >= 4 {
      var w := Number(data[..4]);
      AbsorbInverse(data[4..], Round(h, w, 16), signed);
      RoundInverse(h, w, 16);
      AbsorbInverse(data[4..], h, signed);
      RoundInverse(Unabsorb(data[4..], h, signed), w, 16);
    } else if |data| > 0 {
      RoundInverse(h, Rest(data, signed), 24);
    }
  }

  function SeedFor(data: seq<byte>, h: word, signed: bool): word {
    Start(|data|, Unabsorb(data, h, signed))
  }

  lemma StartTwice(n: nat, seed: word)
    ensures Start(n, Start(n, seed)) == seed
  {
    hide Xor, Scaled;
    Powers();
    XorTwice(seed, Scaled(n), 32);
  }

  /** For every fixed byte string the map from seed to hash is a permutation of the 32-bit values. */
  lemma SeedPermutation(data: seq<byte>, x: word, signed: bool)
    ensures SeedFor(data, HashOf(data, x, signed), signed) == x
    ensures HashOf(data, SeedFor(data, x, signed), signed) == x
  {
    hide Start, Absorb, Unabsorb;
    AbsorbInverse(data, Start(|data|, x), signed);
    AbsorbInverse(data, x, signed);
    StartTwice(|data|, x);
    StartTwice(|data|, Unabsorb(data, x, signed));
  }

  // ---- collisions ------------------------------------------------------------------------------------

  lemma {:induction false} AbsorbAppend(a: seq<byte>, b: seq<byte>, h: word, signed: bool)
    requires |a| % 4 == 0
    ensures Absorb(a + b, h, signed) == Absorb(b, Absorb(a, h, signed), signed)
    decreases |a|
  {
    hide Round, Number, Rest;
    if a == [] {
      assert a + b == b;
    } else {
      assert (a + b)[..4] == a[..4] && (a + b)[4..] == a[4..] + b;
      AbsorbAppend(a[4..], b, Round(h, Number(a[..4]), 16), signed);
    }
  }

  lemma NumberInjective(a: seq<byte>, b: seq<byte>)
    requires |a| == |b| == 4 && (Number(a) - Number(b)) % 0x1_0000_0000 == 0
    ensures a == b
  {
    var p, q, r, s := a[0] as int - b[0] as int, a[1] as int - b[1] as int, a[2] as int - b[2] as int, a[3] as int - b[3] as int;
    SmallMultiple(Number(a) - Number(b));
    assert p + 256 * (q + 256 * (r + 256 * s)) == 0;
    LowDigit(p, q + 256 * (r + 256 * s));
    LowDigit(q, r + 256 * s);
    LowDigit(r, s);
  }

  lemma SmallMultiple(x: int)
    requires -0x1_0000_0000 < x < 0x1_0000_0000 && x % 0x1_0000_0000 == 0
    ensures x == 0
  {
  }

  lemma LowDigit(p: int, rest: int)
    requires -256 < p < 256 && p + 256 * rest == 0
    ensures p == 0 && rest == 0
  {
  }

  lemma RestInjective(a: seq<byte>, b: seq<byte>, signed: bool)
    requires 1 <= |a| == |b| <= 3 && (Rest(a, signed) - Rest(b, signed)) % 0x1_0000_0000 == 0
    ensures a == b
  {
    CharRange(a[0], b[0], signed);
    if |a| >= 2 {
      CharRange(a[1], b[1], signed);
    }
    if |a| == 3 {
      CharRange(a[2], b[2], signed);
    }
  }

  lemma CharRange(a: byte, b: byte, signed: bool)
    ensures -256 < Char(a, signed) - Char(b, signed) < 256
    ensures Char(a, signed) == Char(b, signed) ==> a == b
  {
  }

  lemma OneWord(a: seq<byte>, w: seq<byte>, b: seq<byte>, h: word, signed: bool)
    requires |a| % 4 == 0 && |w| == 4
    ensures Absorb(a + w + b, h, signed) == Absorb(b, Round(Absorb(a, h, signed), Number(w), 16), signed)
  {
    hide Round, Number, Rest;
    assert a + w + b == a + (w + b);
    AbsorbAppend(a, w + b, h, signed);
    assert (w + b)[..4] == w && (w + b)[4..] == b;
  }

  /** Inputs that differ in exactly one aligned word hash differently under every seed. */
  lemma WordMatters(a: seq<byte>, v: seq<byte>, w: seq<byte>, b: seq<byte>, seed: word, signed: bool)
    requires |a| % 4 == 0 && |v| == |w| == 4 && v != w
    ensures HashOf(a + v + b, seed, signed) != HashOf(a + w + b, seed, signed)
  {
    hide Round, Start, Absorb, Unabsorb, Number;
    var h := Start(|a| + 4 + |b|, seed);
    OneWord(a, v, b, h, signed);
    OneWord(a, w, b, h, signed);
    var g := Absorb(a, h, signed);
    AbsorbInverse(b, Round(g, Number(v), 16), signed);
    AbsorbInverse(b, Round(g, Number(w), 16), signed);
    if Round(g, Number(v), 16) == Round(g, Number(w), 16) {
      RoundInjective(g, Number(v), Number(w), 16);
      NumberInjective(v, w);
    }
  }

  /** Inputs of one length that differ only in the tail hash differently under every seed. */
  lemma TailMatters(a: seq<byte>, s: seq<byte>, t: seq<byte>, seed: word, signed: bool)
    requires |a| % 4 == 0 && 1 <= |s| == |t| <= 3 && s != t
    ensures HashOf(a + s, seed, signed) != HashOf(a + t, seed, signed)
  {
    hide Round, Start, Rest;
    var h := Start(|a| + |s|, seed);
    AbsorbAppend(a, s, h, signed);
    AbsorbAppend(a, t, h, signed);
    var g := Absorb(a, h, signed);
    if Round(g, Rest(s, signed), 24) == Round(g, Rest(t, signed), 24) {
      RoundInjective(g, Rest(s, signed), Rest(t, signed), 24);
      RestInjective(s, t, signed);
    }
  }
}
