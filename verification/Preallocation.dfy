/**
 Pre-allocation of file space in whole blocks ahead of the writes.
 */
module Preallocation {
  import opened Bits

  /** One request to reserve file space. */
  datatype Extent = Extent(offset: nat, length: nat)

  /** The extents cover [0, end) in order, without gap or overlap. */
  ghost predicate Tiles(extents: seq<Extent>, end: nat) {
    if extents == [] then end == 0
    else
      var e := extents[|extents| - 1];
      e.length > 0 && e.offset + e.length == end && Tiles(extents[..|extents| - 1], e.offset)
  }

  /** Every byte below the end lies in exactly one extent. */
  lemma {:induction false} TilesCover(extents: seq<Extent>, end: nat, x: nat)
    requires Tiles(extents, end)
    ensures x < end <==> exists i :: 0 <= i < |extents| && Inside(extents[i], x)
    ensures forall i, j :: 0 <= i < |extents| && 0 <= j < |extents| && Inside(extents[i], x) && Inside(extents[j], x) ==> i == j
  {
    if extents != [] {
      var n := |extents| - 1;
      var e, rest := extents[n], extents[..n];
      TilesCover(rest, e.offset, x);
      forall i | 0 <= i < n
        ensures extents[i] == rest[i]
      {
      }
      if x < e.offset {
        var i :| 0 <= i < |rest| && Inside(rest[i], x);
        assert Inside(extents[i], x);
      } else if x < end {
        assert Inside(extents[n], x);
      }
    }
  }

  ghost predicate Inside(e: Extent, x: nat) {
    e.offset <= x < e.offset + e.length
  }

  /** The bytes in n blocks. */
  function Span(size: nat, n: nat): nat {
    size * n
  }

  lemma SpanAdd(size: nat, a: nat, b: nat)
    ensures Span(size, a + b) == Span(size, a) + Span(size, b)
  {
    MulDistribute(a, b, size);
  }

  lemma SpanSize(size: nat, n: nat)
    ensures Span(size, 0) == 0
    ensures n > 0 ==> Span(size, n) >= size
  {
    if n > 0 {
      MulAtLeast(n, size);
    }
  }

  /** How many blocks cover the first `end` bytes. */
  function BlocksFor(end: nat, size: nat): (n: nat)
    requires size > 0
  {
    QuotientNonNegative(end + size - 1, size);
    (end + size - 1) / size
  }

  lemma QuotientNonNegative(x: nat, d: nat)
    requires d > 0
    ensures x / d >= 0
  {
    var q, r := x / d, x % d;
    assert x == q * d + r && r < d;
    MulDistribute(-1 - q, 1, d);
    ProductSign(-1 - q, d);
  }

  lemma ProductSign(a: int, d: nat)
    ensures a >= 0 ==> a * d >= 0
  {
  }

  function Larger(a: nat, b: nat): nat {
    if a < b then b else a
  }

  /** Rounding up to whole blocks covers the end and exceeds it by less than one block. */
  lemma RoundUp(end: nat, size: nat)
    requires size > 0
    ensures end <= Span(size, BlocksFor(end, size)) < end + size
  {
    var x := end + size - 1;
    var q, r := x / size, x % size;
    assert x == q * size + r && r < size;
    assert Span(size, q) == q * size;
  }

  class WritableFile {
    var lastBlock: nat
    var blockSize: nat

    /** The reservations issued, and the furthest end of a prepared write. */
    var extents: seq<Extent>
    ghost var furthest: nat

    constructor ()
      ensures lastBlock == 0 && blockSize == 0 && extents == [] && furthest == 0
    {
      lastBlock, blockSize, extents, furthest := 0, 0, [], 0;
    }

    /**
     The reservations tile the file up to a whole number of blocks, which covers every prepared
     write and goes beyond the furthest of them by less than one block.
     */
    ghost predicate Tiled()
      reads this
    {
      && Tiles(extents, Span(blockSize, lastBlock))
      && furthest <= Span(blockSize, lastBlock)
      && (lastBlock > 0 ==> Span(blockSize, lastBlock) < furthest + blockSize)
    }

    /** Another size keeps the tiling exactly when nothing was reserved yet. */
    method SetPreallocationBlockSize(size: nat)
      modifies this`blockSize
      ensures blockSize == size
      ensures old(Tiled()) ==> (Tiled() <==> lastBlock == 0 || size == old(blockSize))
    {
      if Tiled() {
        SizeChangeTiles(extents, furthest, blockSize, size, lastBlock);
      }
      hide Tiles, Span;
      blockSize := size;
    }

    /** Nothing happens while the block size is zero. */
    method PrepareWrite(offset: nat, len: nat)
      modifies this
      ensures blockSize == old(blockSize)
      ensures blockSize == 0 ==> lastBlock == old(lastBlock) && extents == old(extents) && furthest == old(furthest)
      ensures blockSize > 0 ==> furthest == if offset + len > old(furthest) then offset + len else old(furthest)
      ensures blockSize > 0 && old(Tiled()) ==> Tiled()
      ensures blockSize > 0 ==> offset + len <= Span(blockSize, lastBlock)
      ensures blockSize > 0 ==> lastBlock == Larger(old(lastBlock), BlocksFor(offset + len, blockSize))
      ensures blockSize > 0 ==> extents == ExtentsAfter(old(extents), blockSize, old(lastBlock), offset + len)
      ensures blockSize > 0 && lastBlock > old(lastBlock) ==>
              extents == old(extents) + [Extent(Span(blockSize, old(lastBlock)), Span(blockSize, lastBlock - old(lastBlock)))]
      ensures lastBlock == old(lastBlock) ==> extents == old(extents)
    {
      if blockSize == 0 {
        return;
      }
      var newLast := BlocksFor(offset + len, blockSize);
      RoundUp(offset + len, blockSize);
      hide Span, BlocksFor;
      if newLast > lastBlock {
        var spanned := newLast - lastBlock;
        SpanAdd(blockSize, lastBlock, spanned);
        SpanSize(blockSize, spanned);
        AllocateExtent(Span(blockSize, lastBlock), Span(blockSize, spanned));
        assert extents[..|extents| - 1] == old(extents);
        lastBlock := newLast;
      } else {
        SpanAdd(blockSize, newLast, lastBlock - newLast);
      }
      furthest := if offset + len > furthest then offset + len else furthest;
    }

    method AllocateExtent(offset: nat, length: nat)
      modifies this`extents
      ensures extents == old(extents) + [Extent(offset, length)]
    {
      extents := extents + [Extent(offset, length)];
    }
  }

  /** The tiling and its bounds, for another block size. */
  lemma SizeChangeTiles(extents: seq<Extent>, furthest: nat, oldSize: nat, newSize: nat, last: nat)
    requires Tiles(extents, Span(oldSize, last)) && furthest <= Span(oldSize, last)
    requires last > 0 ==> Span(oldSize, last) < furthest + oldSize
    ensures Tiles(extents, Span(newSize, last)) ==> last == 0 || newSize == oldSize
    ensures last == 0 ==> Tiles(extents, Span(newSize, last)) && furthest == 0 == Span(newSize, last)
  {
    SpanSize(oldSize, 0);
    SpanSize(newSize, 0);
    SpanCancel(last, oldSize, newSize);
    hide Span;
    if Tiles(extents, Span(newSize, last)) {
      EndUnique(extents, Span(oldSize, last), Span(newSize, last));
    }
  }

  // ---- a write after the block size changed ----------------------------------------------

  ghost predicate Reserved(extents: seq<Extent>, x: nat) {
    exists i :: 0 <= i < |extents| && Inside(extents[i], x)
  }

  /** The reservations after preparing a write up to `end`, when `last` blocks were counted. */
  function ExtentsAfter(extents: seq<Extent>, size: nat, last: nat, end: nat): seq<Extent>
    requires size > 0
  {
    var count := BlocksFor(end, size);
    if count > last then extents + [Extent(Span(size, last), Span(size, count - last))] else extents
  }

  /** Exactly which bytes are reserved after the first write prepared with another block size. */
  lemma ReservedAfter(extents: seq<Extent>, oldSize: nat, newSize: nat, last: nat, end: nat, x: nat)
    requires newSize > 0 && Tiles(extents, Span(oldSize, last))
    ensures Reserved(ExtentsAfter(extents, newSize, last, end), x) <==>
            x < Span(oldSize, last) || Span(newSize, last) <= x < Span(newSize, Larger(last, BlocksFor(end, newSize)))
  {
    TilesCover(extents, Span(oldSize, last), x);
    var count := BlocksFor(end, newSize);
    hide Span, BlocksFor, Tiles;
    if count > last {
      SpanAdd(newSize, last, count - last);
      var e := Extent(Span(newSize, last), Span(newSize, count - last));
      ReservedAppend(extents, e, x);
    }
  }

  lemma ReservedAppend(extents: seq<Extent>, e: Extent, x: nat)
    ensures Reserved(extents + [e], x) <==> Reserved(extents, x) || Inside(e, x)
  {
    var all := extents + [e];
    if Reserved(extents, x) {
      var i :| 0 <= i < |extents| && Inside(extents[i], x);
      assert Inside(all[i], x);
    }
    if Inside(e, x) {
      assert Inside(all[|extents|], x);
    }
  }

  /** Every byte of the write is reserved. */
  ghost predicate Covered(extents: seq<Extent>, offset: nat, len: nat) {
    forall x: nat :: offset <= x < offset + len ==> Reserved(extents, x)
  }

  /**
   After the block size changed, the next write is reserved in full exactly when the size did not grow
   or the write keeps clear of the bytes between the old end of the reservations and the new one.
   */
  lemma CoveredAfterChange(extents: seq<Extent>, oldSize: nat, newSize: nat, last: nat, offset: nat, len: nat)
    requires newSize > 0 && Tiles(extents, Span(oldSize, last))
    ensures Covered(ExtentsAfter(extents, newSize, last, offset + len), offset, len) <==>
            len == 0 || newSize <= oldSize || offset + len <= Span(oldSize, last) || Span(newSize, last) <= offset
  {
    var after := ExtentsAfter(extents, newSize, last, offset + len);
    var low, high := Span(oldSize, last), Span(newSize, last);
    SpanOrder(oldSize, newSize, last);
    RoundUp(offset + len, newSize);
    SpanGrows(newSize, BlocksFor(offset + len, newSize), Larger(last, BlocksFor(offset + len, newSize)));
    forall x: nat
      ensures Reserved(after, x) <==> x < low || high <= x < Span(newSize, Larger(last, BlocksFor(offset + len, newSize)))
    {
      ReservedAfter(extents, oldSize, newSize, last, offset + len, x);
    }
    hide Reserved, Span, BlocksFor, ExtentsAfter, Tiles;
    if len > 0 && newSize > oldSize && offset + len > low && high > offset {
      assert !Reserved(after, Larger(offset, low));
    }
  }

  lemma SpanOrder(a: nat, b: nat, n: nat)
    ensures b <= a ==> Span(b, n) <= Span(a, n)
    ensures b > a ==> Span(a, n) < Span(b, n) || Span(b, n) == 0
  {
    MulDistribute(a - b, b, n);
    MulDistribute(b - a, a, n);
    if b > a && n > 0 {
      MulAtLeast(b - a, n);
    } else if b <= a {
      ProductSign(a - b, n);
    }
  }

  lemma SpanGrows(size: nat, a: nat, b: nat)
    requires a <= b
    ensures Span(size, a) <= Span(size, b)
  {
    SpanAdd(size, a, b - a);
  }

  /** With blocks of 10 and then of 100 bytes, a write of 40 bytes at 10 is prepared without any reservation for it. */
  method UnreservedWrite() returns (file: WritableFile)
    ensures file.extents == [Extent(0, 10)] && file.furthest == 50
    ensures forall x: nat :: 10 <= x < 50 ==> !Reserved(file.extents, x)
  {
    file := new WritableFile();
    SmallCounts();
    hide BlocksFor;
    file.SetPreallocationBlockSize(10);
    file.PrepareWrite(0, 5);
    file.SetPreallocationBlockSize(100);
    file.PrepareWrite(10, 40);
  }

  lemma SmallCounts()
    ensures BlocksFor(5, 10) == 1 && BlocksFor(50, 100) == 1
  {
    DivUnique(14, 10, 1, 4);
    DivUnique(149, 100, 1, 49);
  }

  /**
   When the block size changes between two writes, the next reservation continues the tiling exactly
   when nothing was reserved yet or the size is the same.
   */
  lemma BlockSizeChange(extents: seq<Extent>, oldSize: nat, newSize: nat, last: nat, spanned: nat)
    requires oldSize > 0 && newSize > 0 && spanned > 0 && Tiles(extents, Span(oldSize, last))
    ensures Tiles(extents + [Extent(Span(newSize, last), Span(newSize, spanned))], Span(newSize, last + spanned))
            <==> last == 0 || newSize == oldSize
  {
    SpanAdd(newSize, last, spanned);
    SpanSize(newSize, spanned);
    SpanSize(oldSize, 0);
    SpanSize(newSize, 0);
    SpanCancel(last, oldSize, newSize);
    hide Span;
    var all := extents + [Extent(Span(newSize, last), Span(newSize, spanned))];
    assert all[..|all| - 1] == extents;
    if Tiles(extents, Span(newSize, last)) {
      EndUnique(extents, Span(oldSize, last), Span(newSize, last));
    }
  }

  lemma EndUnique(extents: seq<Extent>, a: nat, b: nat)
    requires Tiles(extents, a) && Tiles(extents, b)
    ensures a == b
  {
  }

  lemma SpanCancel(n: nat, a: nat, b: nat)
    ensures Span(a, n) == Span(b, n) ==> n == 0 || a == b
  {
    if n > 0 && Span(a, n) == Span(b, n) {
      DivUnique(a * n, n, a, 0);
      DivUnique(b * n, n, b, 0);
    }
  }
}
