/**
 The bump allocator.  Addresses are numbers; the address of each block that the system
 hands out is a parameter, required only to be a multiple of 8, not null, and clear of
 the blocks the arena already owns.
 */
module Arenas {
  import opened Bits

  const BLOCK_SIZE: nat := 4096
  const ALIGN: nat := 8

  datatype Region = Region(start: nat, size: nat)
  {
    ghost predicate Within(r: Region) {
      r.start <= start && start + size <= r.start + r.size
    }
  }

  /** Regions without a common byte; an empty region is apart from everything. */
  ghost predicate Apart(a: Region, b: Region) {
    a.size == 0 || b.size == 0 || a.start + a.size <= b.start || b.start + b.size <= a.start
  }

  ghost predicate PairwiseApart(rs: seq<Region>) {
    forall i, j :: 0 <= i < j < |rs| ==> Apart(rs[i], rs[j])
  }

  /** A region lies inside one of the blocks. */
  ghost predicate Owned(blocks: seq<Region>, r: Region) {
    exists k :: 0 <= k < |blocks| && r.Within(blocks[k])
  }

  /** What the fallback path asks the system for. */
  function NewBlockSize(bytes: nat): nat {
    if bytes > BLOCK_SIZE / 4 then bytes else BLOCK_SIZE
  }

  /** `b` is a block the system may hand out next. */
  ghost predicate FreshBlock(blocks: seq<Region>, b: Region) {
    b.start > 0 && b.start % ALIGN == 0 && forall i :: 0 <= i < |blocks| ==> Apart(blocks[i], b)
  }

  // ---- where everything lies ----------------------------------------------------------

  /** Blocks, handed-out regions and the free tail of the current block. */
  ghost predicate Layout(blocks: seq<Region>, regions: seq<Region>, tail: Region) {
    && (forall i :: 0 <= i < |blocks| ==> blocks[i].start > 0 && blocks[i].start % ALIGN == 0)
    && PairwiseApart(blocks)
    && PairwiseApart(regions)
    && (forall i :: 0 <= i < |regions| ==> Apart(regions[i], tail))
    && (forall i :: 0 <= i < |regions| && regions[i].size > 0 ==> Owned(blocks, regions[i]))
    && (tail.size > 0 ==> Owned(blocks, tail))
    && (tail.start + tail.size) % ALIGN == 0
  }

  lemma ApartFromFresh(blocks: seq<Region>, b: Region, r: Region, s: Region)
    requires FreshBlock(blocks, b) && (r.size > 0 ==> Owned(blocks, r)) && s.Within(b)
    ensures Apart(r, s)
  {
    if r.size > 0 {
      var k :| 0 <= k < |blocks| && r.Within(blocks[k]);
      assert Apart(blocks[k], b);
    }
  }

  lemma OwnedGrows(blocks: seq<Region>, b: Region, r: Region)
    ensures Owned(blocks, r) || r.Within(b) ==> Owned(blocks + [b], r)
  {
    if Owned(blocks, r) {
      var k :| 0 <= k < |blocks| && r.Within(blocks[k]);
      assert (blocks + [b])[k] == blocks[k];
    } else if r.Within(b) {
      assert (blocks + [b])[|blocks|] == b;
    }
  }

  /** A region at the front of a fresh block; the tail stays, or becomes the rest of that block. */
  lemma NewBlockLayout(blocks: seq<Region>, regions: seq<Region>, tail: Region, b: Region, r: Region, tail': Region)
    requires Layout(blocks, regions, tail) && FreshBlock(blocks, b)
    requires r.Within(b) && Apart(r, tail')
    requires tail' == tail || (tail'.Within(b) && (tail'.start + tail'.size) % ALIGN == 0)
    ensures Layout(blocks + [b], regions + [r], tail')
  {
    hide Owned;
    forall i | 0 <= i < |regions|
      ensures Apart(regions[i], r) && Apart(regions[i], tail') && (regions[i].size > 0 ==> Owned(blocks + [b], regions[i]))
    {
      ApartFromFresh(blocks, b, regions[i], r);
      OwnedGrows(blocks, b, regions[i]);
      if tail' != tail {
        ApartFromFresh(blocks, b, regions[i], tail');
      }
    }
    OwnedGrows(blocks, b, r);
    OwnedGrows(blocks, b, tail');
  }

  /** A region cut from the front of the tail, after skipping some bytes. */
  lemma CutLayout(blocks: seq<Region>, regions: seq<Region>, tail: Region, skip: nat, bytes: nat)
    requires Layout(blocks, regions, tail) && skip + bytes <= tail.size
    ensures Layout(blocks, regions + [Region(tail.start + skip, bytes)],
                   Region(tail.start + (skip + bytes), tail.size - (skip + bytes)))
    ensures bytes > 0 ==> Owned(blocks, Region(tail.start + skip, bytes))
  {
    var r, rest := Region(tail.start + skip, bytes), Region(tail.start + (skip + bytes), tail.size - (skip + bytes));
    if tail.size > 0 {
      var k :| 0 <= k < |blocks| && tail.Within(blocks[k]);
      assert r.Within(blocks[k]) && rest.Within(blocks[k]);
    }
  }

  // ---- where the bytes went -----------------------------------------------------------------

  /**
   All bytes of the blocks are requested, skipped for alignment, abandoned at the end of a block,
   or still free; and the blocks other than the current one, of `current` bytes, are well used.
   */
  ghost predicate Accounted(memory: nat, requested: nat, slop: nat, abandoned: nat, remaining: nat, current: nat) {
    && memory == requested + slop + abandoned + remaining
    && remaining <= current <= memory
    && (current == 0 || current == BLOCK_SIZE)
    && 3073 * (memory - current) <= BLOCK_SIZE * (requested + slop - (current - remaining))
  }

  class Arena {
    var allocPtr: nat
    var remaining: nat
    var blocks: seq<Region>
    var blocksMemory: nat

    ghost var regions: seq<Region>
    ghost var requested: nat
    ghost var slop: nat
    ghost var abandoned: nat

    ghost predicate Valid()
      reads this
    {
      && Layout(blocks, regions, Region(allocPtr, remaining))
      && Accounted(blocksMemory, requested, slop, abandoned, remaining, if allocPtr == 0 then 0 else BLOCK_SIZE)
    }

    /** The request was cut from the free tail, after `skip` bytes; no block was added. */
    ghost predicate Served(blocks0: seq<Region>, memory0: nat, ptr0: nat, remaining0: nat, skip: nat, bytes: nat, result: nat)
      reads this
    {
      && blocks == blocks0 && blocksMemory == memory0
      && result == ptr0 + skip && allocPtr == ptr0 + skip + bytes && remaining == remaining0 - skip - bytes
    }

    /** The request went to a new block: its own if above a quarter of 4096 bytes, else one that becomes the current block. */
    ghost predicate NewBlock(blocks0: seq<Region>, memory0: nat, ptr0: nat, remaining0: nat, bytes: nat, at: nat, result: nat)
      reads this
    {
      && result == at && blocks == blocks0 + [Region(at, if bytes > 1024 then bytes else 4096)]
      && blocksMemory == memory0 + (if bytes > 1024 then bytes else 4096)
      && (if bytes > 1024 then allocPtr == ptr0 && remaining == remaining0 else allocPtr == at + bytes && remaining == 4096 - bytes)
    }

    constructor ()
      ensures Valid() && blocks == [] && regions == [] && blocksMemory == allocPtr == remaining == 0
      ensures requested == slop == abandoned == 0
    {
      allocPtr, remaining, blocks, blocksMemory := 0, 0, [], 0;
      regions, requested, slop, abandoned := [], 0, 0, 0;
    }

    method AllocateNewBlock(bytes: nat, at: nat) returns (result: nat)
      modifies this`blocks, this`blocksMemory
      ensures result == at && blocks == old(blocks) + [Region(at, bytes)] && blocksMemory == old(blocksMemory) + bytes
    {
      result := at;
      blocksMemory := blocksMemory + bytes;
      blocks := blocks + [Region(at, bytes)];
    }

    /** Reached when the request does not fit the current block's tail. */
    method AllocateFallback(bytes: nat, at: nat) returns (result: nat)
      requires Valid() && bytes > 0 && FreshBlock(blocks, Region(at, NewBlockSize(bytes)))
      requires bytes <= BLOCK_SIZE / 4 ==> remaining < BLOCK_SIZE / 4
      modifies this
      ensures Valid() && result == at && result % ALIGN == 0 && Owned(blocks, Region(result, bytes))
      ensures blocks == old(blocks) + [Region(at, NewBlockSize(bytes))]
      ensures regions == old(regions) + [Region(result, bytes)]
      ensures requested == old(requested) + bytes && slop == old(slop)
      ensures abandoned == old(abandoned) + if bytes > BLOCK_SIZE / 4 then 0 else old(remaining)
      ensures bytes > 1024 ==> allocPtr == old(allocPtr) && remaining == old(remaining) && blocksMemory == old(blocksMemory) + bytes
      ensures bytes <= 1024 ==> allocPtr == at + bytes && remaining == 4096 - bytes && blocksMemory == old(blocksMemory) + 4096
    {
      hide Layout, Owned;
      ghost var b, r := Region(at, NewBlockSize(bytes)), Region(at, bytes);
      ghost var tail := Region(allocPtr, remaining);
      OwnedGrows(blocks, b, r);
      if bytes > BLOCK_SIZE / 4 {
        OversizeApart(blocks, regions, tail, b);
        NewBlockLayout(blocks, regions, tail, b, r, tail);
        result := AllocateNewBlock(bytes, at);
        regions, requested := regions + [r], requested + bytes;
        return;
      }
      NewBlockLayout(blocks, regions, tail, b, r, Region(at + bytes, BLOCK_SIZE - bytes));
      abandoned := abandoned + remaining;
      allocPtr := AllocateNewBlock(BLOCK_SIZE, at);
      remaining := BLOCK_SIZE;
      result := allocPtr;
      allocPtr := allocPtr + bytes;
      remaining := remaining - bytes;
      regions, requested := regions + [r], requested + bytes;
    }

    /** Hands out the front of the current block's tail, after skipping `skip` bytes. */
    method Bump(bytes: nat, skip: nat) returns (result: nat)
      requires Valid() && skip + bytes <= remaining
      modifies this
      ensures Valid() && result == old(allocPtr) + skip && (bytes > 0 ==> Owned(blocks, Region(result, bytes)))
      ensures blocks == old(blocks) && blocksMemory == old(blocksMemory)
      ensures regions == old(regions) + [Region(result, bytes)]
      ensures requested == old(requested) + bytes && slop == old(slop) + skip && abandoned == old(abandoned)
      ensures remaining == old(remaining) - (skip + bytes) && allocPtr == old(allocPtr) + (skip + bytes)
    {
      hide Layout, Owned;
      CutLayout(blocks, regions, Region(allocPtr, remaining), skip, bytes);
      result := allocPtr + skip;
      allocPtr := allocPtr + (skip + bytes);
      remaining := remaining - (skip + bytes);
      regions, requested, slop := regions + [Region(result, bytes)], requested + bytes, slop + skip;
    }

    method Allocate(bytes: nat, at: nat) returns (result: nat)
      requires Valid() && bytes > 0 && FreshBlock(blocks, Region(at, NewBlockSize(bytes)))
      modifies this
      ensures Valid() && Owned(blocks, Region(result, bytes))
      ensures regions == old(regions) + [Region(result, bytes)]
      ensures requested == old(requested) + bytes && slop == old(slop)
      ensures 0 <= abandoned - old(abandoned) < 1024
      ensures bytes <= old(remaining) ==> Served(old(blocks), old(blocksMemory), old(allocPtr), old(remaining), 0, bytes, result)
      ensures bytes > old(remaining) ==> NewBlock(old(blocks), old(blocksMemory), old(allocPtr), old(remaining), bytes, at, result)
    {
      if bytes <= remaining {
        result := Bump(bytes, 0);
      } else {
        result := AllocateFallback(bytes, at);
      }
    }

    lemma AlignedTail()
      requires Valid()
      ensures (allocPtr + remaining) % ALIGN == 0
    {
    }

    /** Also accepts requests of no bytes, which may be answered with the null address of an empty arena. */
    method AllocateAligned(bytes: nat, at: nat) returns (result: nat)
      requires Valid() && FreshBlock(blocks, Region(at, NewBlockSize(bytes)))
      modifies this
      ensures Valid() && result % 8 == 0 && (bytes > 0 ==> Owned(blocks, Region(result, bytes)))
      ensures regions == old(regions) + [Region(result, bytes)]
      ensures requested == old(requested) + bytes && 0 <= slop - old(slop) < 8
      ensures 0 <= abandoned - old(abandoned) < 1024
      ensures var skip := (8 - old(allocPtr) % 8) % 8;
              if bytes + skip <= old(remaining)
              then Served(old(blocks), old(blocksMemory), old(allocPtr), old(remaining), skip, bytes, result)
              else NewBlock(old(blocks), old(blocksMemory), old(allocPtr), old(remaining), bytes, at, result)
    {
      hide And, Owned, Arena.Valid, FreshBlock;
      AlignedTail();
      MaskSeven(allocPtr);
      SkipIs(allocPtr);
      var currentMod := And(allocPtr, ALIGN - 1);
      var skip := if currentMod == 0 then 0 else ALIGN - currentMod;
      TailEndsAligned(allocPtr, remaining, bytes, skip);
      if bytes + skip <= remaining {
        result := Bump(bytes, skip);
      } else {
        result := AllocateFallback(bytes, at);
      }
    }

    /** `capacity` is the capacity of the block vector, at least its size; a pointer takes 8 bytes. */
    method MemoryUsage(capacity: nat) returns (bytes: nat)
      requires Valid() && capacity >= |blocks|
      ensures bytes == blocksMemory + 8 * capacity && bytes >= requested
    {
      bytes := blocksMemory + capacity * 8;
    }

    /** Except for one block, at most 1023 bytes in 4096 are lost. */
    lemma WasteBound()
      requires Valid()
      ensures 3073 * (blocksMemory - 4096) <= 4096 * (requested + slop)
      ensures requested + slop + abandoned + remaining == blocksMemory
    {
    }
  }

  lemma OversizeApart(blocks: seq<Region>, regions: seq<Region>, tail: Region, b: Region)
    requires Layout(blocks, regions, tail) && FreshBlock(blocks, b)
    ensures Apart(b, tail)
  {
    ApartFromFresh(blocks, b, tail, b);
  }

  /**
   The tail ends on a multiple of 8, so skipping to an aligned address never uses it up, and a small
   aligned request that does not fit leaves less than a quarter of a block.
   */
  lemma TailEndsAligned(ptr: nat, remaining: nat, bytes: nat, skip: nat)
    requires (ptr + remaining) % ALIGN == 0
    requires skip == if ptr % ALIGN == 0 then 0 else ALIGN - ptr % ALIGN
    ensures (ptr + skip) % ALIGN == 0 && skip <= remaining
    ensures skip + bytes > remaining ==> bytes > 0 && (bytes <= BLOCK_SIZE / 4 ==> remaining < BLOCK_SIZE / 4)
  {
  }

  lemma SkipIs(x: nat)
    ensures (8 - x % 8) % 8 == if x % 8 == 0 then 0 else 8 - x % 8
  {
  }

  lemma MaskSeven(x: nat)
    ensures And(x, ALIGN - 1) == x % ALIGN
  {
    Powers();
    AndMask(x, 3);
  }

  /** Two aligned requests to a new arena: the second, of 2000 bytes, still fits the first block. */
  method TwoRequests() returns (a: Arena)
    ensures a.Valid() && a.regions == [Region(4096, 8), Region(4104, 2000)]
    ensures a.blocks == [Region(4096, 4096)] && a.blocksMemory == 4096 && a.remaining == 2088
  {
    a := new Arena();
    var p := a.AllocateAligned(8, 4096);
    p := a.AllocateAligned(2000, 16384);
  }
}
