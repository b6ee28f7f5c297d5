# Verified model of a LevelDB-style storage core

This project models, in Dafny, the parts of the repository that do real work, and proves what they
promise for every input, every run and every interleaving:

- **Skip list** (`src/db/skiplist.h`), twice. `SkipLists` is the list as a heap of nodes that
  `Insert` updates in place. `LockFree` is a step machine in which one writer's stores interleave
  with the loads of any number of readers; `Linearizability` shows that every execution is a run of
  the atomic machine in `Atomic`, `SearchBound` bounds the loads of every search, and `Insertions` says what a
  whole interleaved insertion does to the list. Both share the
  chain lemmas of `Chains` and `Lists`.
- **Coding** (`src/util/coding.cpp`, `src/util/coding.h`). `Varints` and `VarintDecoding` for the
  variable-length integers (unsigned LEB128, section 7.6 of the DWARF Version 5 standard), `Slices`
  for length-prefixed strings, `BitStreams` for integers at any bit offset.
- **Arena** (`src/util/arena.cpp`, `src/util/arena.h`): `Arenas`.
- **Random** (`src/util/random.h`): `RandomNumbers`, and in `Period` (with the evaluations of
  `PowerTable`) the proof that the generator runs through all of [1, 2^31-2]. It is the
  `minstd_rand0` engine of clause [rand.predef] of the C++ standard.
- **Hash** (`src/util/hash.cpp`): `Hashing`.
- **Pre-allocation** (`include/leveldb/env.h`): `Preallocation`.

## What the proofs turned up

- **Upper levels of the skip list do not stay sorted.** The fast path of `FindGreatOrEqual` reuses
  the predecessors of the previous insertion without refreshing those above level 0. `LevelHistory`
  says exactly which levels a run leaves out of order, from the inserted keys and the seed alone: level
  i, if and only if two nodes reach it, the second of them and every key inserted between the two
  belonging directly behind the key inserted just before (`SkipListRuns.Build`). Inserting increasing
  keys puts every level out of order that two nodes reach; inserting keys that never grow keeps all
  levels in order. `SkipListRuns.FiveAscendingInserts` shows it with the list's own seed: five ascending
  keys put exactly the levels 1, 2 and 3 out of order. Searches stay right, because level 0 is sorted,
  every node is on all levels below its height, and every move of a search goes to a node below the
  key; that is the invariant proved here instead of "every level is sorted".
- **Length prefixes are cut to 32 bits.** A slice survives `PutLengthPrefixedSlice` and
  `GetLengthPrefixedSlice` if and only if it is shorter than 2^32 bytes (`Slices.FieldRoundTrip`).
- **Changing the pre-allocation block size breaks the tiling** unless nothing was reserved yet. If the
  size grew, the next write can be left without reservation; `Preallocation.CoveredAfterChange` gives
  the exact condition and `Preallocation.UnreservedWrite` an input.
- **One slice passed as both input and result** of `GetLengthPrefixedSlice` ends up empty on success.
- **The comment on the generator's cycle is right** (`src/util/random.h:22-25`): 0 and 2^31-1 never
  move, and every other seed runs through all of [1, 2^31-2].

## Reading choices

- `src/db/skiplist.h:124` passes a node pointer where a level is expected and cannot be instantiated.
  The model stores `prev_[i]->NoBarrier_Next(i)` into the new node's slot i, with the setter of line 91.
- `src/db/skiplist.h:152` masks with `kBranching` itself, so a height grows while bit 2 of the draw is
  zero; the model does the same.
- Atomic loads and stores are single steps in one global order. A link slot that was never written
  holds a special value, so that publication order is something to prove.
- Comparators are arbitrary total preorders: different keys may compare equal, and the list keeps
  duplicates.
- `uint32_t`, `uint64_t` and `unsigned char` arithmetic is written out as remainders of natural
  numbers.
- Where `char` is signed, `src/util/hash.cpp:30-36` shifts negative numbers left; the model shifts their
  two's complement bits, as C++20 defines it. `Hashing` covers signed and unsigned `char`.
- The address of each new block of the arena is a parameter, a non-null multiple of 8 that does not
  overlap the blocks already owned.

## Model

| member | source | states |
|---|---|---|
| Chains.ChainUnique | src/db/skiplist.h:79-98 | a level determines its chain: two null-terminated walks from the head are the same walk |
| Chains.Publish | src/db/skiplist.h:123-126 | once the new node holds its predecessor's link, the publishing store turns the level's chain into the chain with the node behind that predecessor |
| Chains.SortedInsert | src/db/skiplist.h:123-126 | a level is in key order after a node was linked behind another if and only if it was before and the key fits there; an inversion is never repaired |
| Chains.SplitIsRank | src/db/skiplist.h:173-188 | any position with all smaller keys before it and none behind is where a linear scan of the list stops |
| Lists.EmptyInv | src/db/skiplist.h:101-111 | the constructed list satisfies the invariant, has every node linked on all its levels and no keys |
| Lists.StopSplits | src/db/skiplist.h:173-188 | a search that stops on level 0, however it came there, stands at the split of the whole list and its link is the first node at or after the key |
| Lists.Advance | src/db/skiplist.h:176-178 | following a link goes one node further along the level and keeps the search on nodes below the key |
| Lists.Descend | src/db/skiplist.h:185 | a node on a level is on every level below |
| Lists.FoundIsMember | src/db/skiplist.h:130-137 | the node found compares equal to the key if and only if some key of the list does |
| Lists.TargetBelow | src/db/skiplist.h:167-188 | the node a search for one key finds is below another key if and only if some key of the list lies from the first up to the second |
| Lists.ContentsOrdered | src/db/skiplist.h:114-128 | the keys along level 0 are in non-decreasing order |
| Lists.FillInv | src/db/skiplist.h:124 | writing the new node's own slot before the level is published changes no level and no contents |
| Lists.LinkInv | src/db/skiplist.h:125 | publishing a filled level keeps the invariant and adds the key to the contents exactly on level 0 |
| Lists.TopLevel | src/db/skiplist.h:117-121 | above the current height only the head is linked and remembered |
| Lists.InsertedSlot | src/db/skiplist.h:122-127 | the new node points at the node the search found |
| LevelOrder.Searched | src/db/skiplist.h:173-188 | after a full search the remembered predecessor of every level and its successor lie on both sides of the gap for the key |
| LevelOrder.LevelSorted | src/db/skiplist.h:114-128 | an insertion leaves a level above 0 in order if and only if it was in order and the node is not linked there behind an overtaken predecessor |
| LevelOrder.InsertOrder | src/db/skiplist.h:114-128 | one insertion, whatever search preceded it: the levels out of order become exactly the old ones and those linked while dirty |
| LevelHistory.OneMore | src/db/skiplist.h:114-171 | how one more key changes the levels linked since the last full search and the disordered levels, both defined over the keys and the seed |
| LevelHistory.IncreasingDisorders | src/db/skiplist.h:114-171 | increasing keys disorder a level if and only if two of the nodes reach it |
| LevelHistory.NonIncreasingKeepsOrder | src/db/skiplist.h:114-171 | keys that never grow disorder no level |
| SkipLists.Node.Next | src/db/skiplist.h:79-82 | the pointer stored in a written slot |
| SkipLists.Node.SetNext | src/db/skiplist.h:83-86 | changes one slot and nothing else |
| SkipLists.SkipList.constructor | src/db/skiplist.h:101-111 | a valid list without keys, all twelve levels empty and in order, its generator seeded with the low 31 bits of 0xdeadbeef |
| SkipLists.SkipList.FindGreatOrEqual | src/db/skiplist.h:163-189 | the first node at or after the key, the same with and without the remembered predecessors; afterwards the remembered node of level 0 is its predecessor, the others are linked on their levels, and after a full search they straddle the gap |
| SkipLists.SkipList.Search | src/db/skiplist.h:173-188 | the search through all levels ends at the first node at or after the key and records where each level was left; terminates by level and nodes left on the level |
| SkipLists.SkipList.Insert | src/db/skiplist.h:114-128 | adds the key to the multiset of keys, keeps every invariant, remembers the new node, which points at the node the search found and has the height drawn from the generator, raises the list to that height, and says which upper levels become dirty and which go out of order |
| SkipLists.SkipList.Splice | src/db/skiplist.h:122-126 | the new node is behind the remembered predecessor on every level below its height and on no other |
| SkipLists.SkipList.LinkLevel | src/db/skiplist.h:123-126 | the two stores of one level are the fill and the publication of the value model |
| SkipLists.SkipList.NewNode | src/db/skiplist.h:140-146 | a fresh node whose slots are all unwritten, linked nowhere |
| SkipLists.SkipList.RandomHeight | src/db/skiplist.h:149-156 | the number of the first draw with bit 2 set, or 12 when the first eleven draws have it clear, and the generator state after those draws |
| SkipLists.SkipList.Contains | src/db/skiplist.h:130-137 | true if and only if some key in the list compares equal |
| SkipLists.SkipList.FindLessThan | src/db/skiplist.h:191-209 | the level-0 predecessor of what the search for the key finds |
| SkipLists.SkipList.FindLast | src/db/skiplist.h:211-227 | the last node of level 0, or the head |
| SkipListRuns.HintIsFollowing | src/db/skiplist.h:167-171 | after any run the fast path is taken if and only if nothing was inserted yet, or the previous key is below the new one and no earlier key lies from it up to the new one |
| SkipListRuns.InsertNext | src/db/skiplist.h:114-128 | one more insertion keeps the account of the run: keys, seed, remembered node, dirty and disordered levels |
| SkipListRuns.InsertAll | src/db/skiplist.h:114-128 | any sequence of insertions adds exactly its multiset of keys; in a list built by insertions the out-of-order levels stay those that all inserted keys and the seed determine |
| SkipListRuns.Build | src/db/skiplist.h:101-128 | a list built from any keys holds exactly them, in non-decreasing order, and a level above 0 is in order if and only if the keys and the seed do not disorder it |
| SkipListRuns.BuildAndLookUp | src/db/skiplist.h:101-137 | such a list finds exactly the keys equal to one of them |
| SkipListRuns.FirstHeights | src/db/skiplist.h:106-156 | the first five heights drawn from the list's seed are 5, 1, 1, 1, 4 |
| SkipListRuns.FiveAscendingInserts | src/db/skiplist.h:101-171 | a new list after five ascending insertions has exactly the levels 1, 2 and 3 out of key order |
| Atomic.InsertedIsFound | src/db/skiplist.h:5-11 | in the atomic machine a lookup called after an insertion of an equal key returned finds it |
| Atomic.FoundWasInserted | src/db/skiplist.h:5-11 | in the atomic machine a lookup that finds a key was preceded by the call of such an insertion |
| Atomic.FoundStaysFound | src/db/skiplist.h:13-17 | in the atomic machine, once a key was found, every later lookup of an equal key finds it |
| LockFree.StepKeeps | src/db/skiplist.h:19-23 | every step of the writer and of every reader keeps the invariant of the shared list |
| LockFree.PublishKeeps | src/db/skiplist.h:125 | the publishing store keeps the invariant while readers stand anywhere, and adds the key to the contents exactly on level 0 |
| LockFree.ReadersKept | src/db/skiplist.h:8-23 | a reader's position stays good when the list only grows |
| Linearizability.LoadsAreWritten | src/db/skiplist.h:79-94 | in every execution no thread loads a slot that was never written or lies beyond the node's height |
| Linearizability.LevelsAreChains | src/db/skiplist.h:107-126 | at every instant every level is an acyclic null-terminated chain contained in the one below and level 0 is in order; with no insertion under way level i holds exactly the nodes of height above i |
| Linearizability.LastLoadIsExact | src/db/skiplist.h:173-188 | the result of a search is the first node at or after its key on level 0 as it stood at the search's last load |
| Linearizability.LoadsMakeProgress | src/db/skiplist.h:173-188 | every load of a search ends it, goes down a level, or goes exactly one node further |
| Linearizability.KeysKept | src/db/skiplist.h:19-23 | no step changes the key of a node |
| Linearizability.StepSimulates | src/db/skiplist.h:114-137 | every step is a step of the atomic machine: an insertion takes effect at its level-0 publication, a lookup at its last load |
| Linearizability.Linearizable | src/db/skiplist.h:8-23 | every execution is a run of the atomic machine with the same calls and returns |
| Linearizability.CompletedInsertsAreSeen | src/db/skiplist.h:114-137 | in every interleaving a lookup started after the insertion of an equal key ended answers true |
| Linearizability.NothingInvented | src/db/skiplist.h:130-137 | in every interleaving a lookup that answers true was preceded by the start of an insertion of an equal key |
| Linearizability.FoundIsSeenAgain | src/db/skiplist.h:13-17 | in every interleaving, once a lookup answered true, every lookup of an equal key that starts later answers true |
| Insertions.HeightIsDrawn | src/db/skiplist.h:116-122 | in every execution a node has the height drawn last before its allocation, ever after |
| Insertions.LinkedBelowDrawn | src/db/skiplist.h:116-126 | while no insertion is under way a node is on a level if and only if the level is below the height drawn for it |
| Insertions.HeightIsTallest | src/db/skiplist.h:117-121 | in every execution the current height is the largest one drawn so far, at least 1 |
| Insertions.StartsOnTop | src/db/skiplist.h:173-174 | a lookup starts at the head, on the top level of the tallest node drawn so far |
| Insertions.InsertionEffect | src/db/skiplist.h:114-128 | in every execution, from its call to its return, an insertion keeps the remembered predecessors if the hint fits and otherwise records where the search left every level, links its node behind them on exactly the levels below its height, and remembers it, whatever readers do meanwhile |
| Insertions.EffectOrder | src/db/skiplist.h:114-171 | so it puts upper levels out of order exactly as the sequential insertion does |
| SearchBound.WithinBudget | src/db/skiplist.h:173-188 | at every instant the loads of a search under way are at most the nodes on the levels above it and those before it on its own level |
| SearchBound.LoadsBounded | src/db/skiplist.h:173-188 | in every execution, at every instant, a search has made at most as many loads as the levels then have nodes in total, and fewer unless it has its answer |
| SearchBound.SearchEnds | src/db/skiplist.h:173-188 | while no node is published, a search has its answer after as many loads as the levels had nodes in total when it began |
| Varints.LebLength | src/util/coding.cpp:88-95 | the encoded length is the least number of seven-bit groups that hold the value |
| Varints.LebSpells | src/util/coding.cpp:66-75 | the groups of an encoding spell the value |
| Varints.EncodeVarint64 | src/util/coding.cpp:66-75 | writes exactly the LEB128 bytes at the position and nothing else, and returns the position behind them |
| Varints.EncodeVarint32 | src/util/coding.cpp:32-58 | the five unrolled cases write the same LEB128 bytes, and nothing else |
| Varints.VarintLength | src/util/coding.cpp:88-95 | the length of the encoding, between 1 and 10 |
| VarintDecoding.RoundTrip | src/util/coding.cpp:97-142 | decoding an encoding followed by any suffix gives the value and stops exactly behind it, for both widths |
| VarintDecoding.DecodedBytes32 | src/util/coding.cpp:97-113 | the 32-bit decoding fails if and only if none of the first five bytes ends the group, and otherwise is the number spelled up to the first byte that does, modulo 2^32 |
| VarintDecoding.SampleEncodings | src/util/coding.cpp:32-75 | the bytes of 300 and of 2^32-1 |
| VarintDecoding.SampleDecodings | src/util/coding.cpp:97-142 | six groups that only the 64-bit form reads, and five groups that lose a bit to the width |
| VarintDecoding.TruncatedRejected | src/util/coding.cpp:97-142 | every strict prefix of an encoding is rejected |
| VarintDecoding.PrefixFree | src/util/coding.cpp:66-75 | no encoding is a prefix of another |
| VarintDecoding.ReencodingNotLonger | src/util/coding.cpp:97-142 | re-encoding an accepted value is never longer than the bytes consumed |
| VarintDecoding.DecodeThenEncode | src/util/coding.cpp:97-142 | the bytes consumed are the encoding of the value if and only if they end without a superfluous group and no bit was lost to the width |
| VarintDecoding.ReadGroup | src/util/coding.cpp:129-139 | or-ing a shifted and truncated group into the result appends it to the number spelled so far, modulo the width |
| VarintDecoding.GetVarint64Ptr | src/util/coding.cpp:127-142 | fails if and only if none of the first ten bytes before the limit ends the group; otherwise stops behind the first that does, with the number spelled so far modulo 2^64 |
| VarintDecoding.GetVarint32PtrFallback | src/util/coding.cpp:97-113 | the same with five bytes and 2^32 |
| VarintDecoding.GetVarint32Ptr | src/util/coding.h:92-102 | the one-byte fast path meets the same contract on every input |
| Slices.Slice.RemovePrefix | include/leveldb/slice.h:61-65 | drops exactly that many bytes |
| Slices.GetVarint32 | src/util/coding.cpp:115-125 | succeeds as the pointer form does and advances the slice past the value, or leaves it alone |
| Slices.GetVarint64 | src/util/coding.cpp:144-154 | the same for 64 bits |
| Slices.GetLengthPrefixedSlicePtr | src/util/coding.cpp:156-164 | the content and size of a field whose length is readable and whose content ends before the limit; nothing if and only if one of the two fails |
| Slices.GetLengthPrefixedSlice | src/util/coding.cpp:166-175 | succeeds if and only if the length is readable and the content complete; agrees with the pointer form on content and remainder; on failure the slice is behind the length if that was readable; one slice passed for both ends up empty |
| Slices.PutVarint32 | src/util/coding.cpp:60-64 | appends exactly the encoding |
| Slices.PutVarint64 | src/util/coding.cpp:77-81 | appends exactly the encoding |
| Slices.PutLengthPrefixedSlice | src/util/coding.cpp:83-86 | appends the length cut to 32 bits and the content |
| Slices.FieldRoundTrip | src/util/coding.cpp:83-164 | a written slice reads back with the rest left over if and only if it is shorter than 2^32 |
| Slices.FieldTruncated | src/util/coding.cpp:156-175 | every strict prefix of a written field is rejected |
| Slices.FieldShape | src/util/coding.cpp:156-175 | a parsed field has exactly the length it announces, and nothing else is parsed |
| Slices.ListRoundTrip | src/util/coding.cpp:83-175 | any list of slices shorter than 2^32 bytes, written back to back, reads back as the same list with the suffix left over |
| Slices.ListsDistinguished | src/util/coding.cpp:83-86 | different lists of slices shorter than 2^32 bytes never have the same bytes, whatever the lists' lengths |
| BitStreams.BitStreamPutInt | src/util/coding.cpp:177-209 | the bits of the range become the low bits of the value and every other bit of the buffer stays; as a little-endian number the buffer keeps its digits below and above the range |
| BitStreams.BitStreamGetInt | src/util/coding.cpp:211-237 | the buffer as a little-endian number, divided by 2^offset, modulo 2^bits |
| BitStreams.BitStreamPutIntString | src/util/coding.cpp:239-264 | working through the nine-byte copy leaves the string as the direct form would and its terminator zero |
| BitStreams.PatchedBits | src/util/coding.cpp:199-200 | the mask-and-add expression replaces exactly the chosen bits of a byte |
| BitStreams.LittleBits | src/util/coding.h:104-120 | bit i of the buffer is bit i of its little-endian number |
| BitStreams.WrittenDigits | src/util/coding.h:104-120 | a put replaces exactly the digits of the range in that number |
| BitStreams.LittleSample | src/util/coding.h:104-120 | the number of the bytes 0xb5 0x01 |
| BitStreams.WrittenUnique | src/util/coding.cpp:177-264 | the effect of a put is determined, so the two forms leave the same bytes |
| BitStreams.GetAfterPut | src/util/coding.cpp:208 | reading back gives the value modulo 2^bits |
| BitStreams.OtherFieldKept | src/util/coding.h:104-120 | a field outside the written range keeps its value |
| BitStreams.DisjointPutsCommute | src/util/coding.h:104-120 | puts to disjoint ranges commute |
| BitStreams.PackedArray | src/util/coding.h:104-120 | packed fields of one width behave like an array of integers |
| Arenas.Arena.constructor | src/util/arena.cpp:9-10 | an empty arena |
| Arenas.Arena.AllocateNewBlock | src/util/arena.cpp:33-38 | owns one block more and counts its bytes |
| Arenas.Arena.AllocateFallback | src/util/arena.cpp:16-32 | for a request that did not fit the tail: an aligned region in a new block, alone in it if larger than a quarter block; otherwise the old tail is abandoned |
| Arenas.Arena.Bump | src/util/arena.h:53-58 | hands out the front of the free tail |
| Arenas.Arena.Allocate | src/util/arena.h:48-60 | over every run all regions lie in owned blocks, are pairwise disjoint and clear of the free tail, and all bytes are accounted for; a request that fits is cut from the tail without a new block, any other gets a new block of 4096 bytes or, above 1024 bytes, of its own size; less than 1024 bytes are abandoned |
| Arenas.Arena.AllocateAligned | src/util/arena.cpp:40-58 | the same, with a result that is a multiple of 8: cut from the tail at the next multiple of 8 if and only if it fits there |
| Arenas.TwoRequests | src/util/arena.cpp:40-58 | requests of 8 and 2000 bytes to a new arena share its first block of 4096 bytes |
| Arenas.Arena.MemoryUsage | src/util/arena.h:29-31 | the bytes of the blocks and of the block vector, at least the bytes requested |
| Arenas.Arena.WasteBound | src/util/arena.cpp:16-58 | 3073 * (memory - 4096) <= 4096 * (requested + skipped), and memory is exactly requested + skipped + abandoned + free |
| Arenas.NewBlockLayout | src/util/arena.cpp:16-38 | a region in a fresh block is disjoint from everything handed out before |
| Arenas.CutLayout | src/util/arena.h:53-58 | cutting a region from the tail keeps all regions disjoint and owned |
| Arenas.TailEndsAligned | src/util/arena.cpp:44-48 | in a tail that ends on a multiple of 8, skipping to alignment never overruns the tail, and a request of at most a quarter block that does not fit leaves less than a quarter block |
| RandomNumbers.Random.constructor | src/util/random.h:16 | the seed cut to 31 bits |
| RandomNumbers.Random.Next | src/util/random.h:17-35 | seed * 16807 modulo 2^31-1 except that 2^31-1 stays; the result is in [1, M-1] if and only if the seed was |
| RandomNumbers.Random.Uniform | src/util/random.h:38 | below n, the draw modulo n |
| RandomNumbers.Random.Skewed | src/util/random.h:47 | two draws: the first gives a base of at most max_log, the second the result below 2^base |
| RandomNumbers.FoldIsRemainder | src/util/random.h:28-33 | shift, add and one conditional subtraction are the remainder modulo 2^31-1 |
| RandomNumbers.LehmerInjective | src/util/random.h:20-29 | no two states have the same successor |
| RandomNumbers.LehmerStays | src/util/random.h:22-24 | a draw stays in [1, M-1] exactly from a state in [1, M-1] |
| Period.NoShorterPeriod | src/util/random.h:22-24 | no exponent between 0 and M-1 makes a power of the multiplier 1 |
| Period.VisitsEverything | src/util/random.h:22-24 | from any state in [1, M-1] every state of that range is reached within M-1 draws |
| Period.ExactPeriod | src/util/random.h:22-24 | the state comes back exactly after the multiples of M-1 draws |
| Hashing.Hash | src/util/hash.cpp:11-42 | the loop and the fall-through switch, in wrapping 32-bit operations, compute the integer recursion of the rows below |
| Hashing.LengthMixed | src/util/hash.cpp:16 | the recursion starts from the seed exclusive-or the length times 0xc6a4a793 modulo 2^32 |
| Hashing.WordAbsorbed | src/util/hash.cpp:19-25 | four bytes are added as one little-endian number, multiplied by 0xc6a4a793 modulo 2^32, and the quotient by 2^16 is folded in |
| Hashing.TailAbsorbed | src/util/hash.cpp:28-40 | left-over characters are added as one number in which a signed character may be negative, multiplied, and the quotient by 2^24 is folded in |
| Hashing.HashOfNothing | src/util/hash.cpp:16-41 | the hash of no bytes is the seed |
| Hashing.SampleHashes | src/util/hash.cpp:11-42 | under seed 0, one zero byte hashes to 0x86091eef and the bytes 1, 2, 3, 4 to 0x6ad12de6 |
| Hashing.SeedPermutation | src/util/hash.cpp:11-42 | for every byte string the map from seed to hash is a permutation of the 32-bit values, with an explicit inverse |
| Hashing.WordMatters | src/util/hash.cpp:19-25 | inputs that differ in one aligned word hash differently under every seed |
| Hashing.TailMatters | src/util/hash.cpp:28-40 | inputs of one length that differ only in the tail hash differently under every seed, with signed or unsigned characters |
| Hashing.SwitchSum | src/util/hash.cpp:28-37 | adding the converted characters one after the other adds their values modulo 2^32 |
| Preallocation.TilesCover | include/leveldb/env.h:330-347 | every byte below the reserved end lies in exactly one reservation |
| Preallocation.WritableFile.constructor | include/leveldb/env.h:287 | nothing reserved, block size zero |
| Preallocation.WritableFile.SetPreallocationBlockSize | include/leveldb/env.h:314-316 | sets the block size only, and keeps the tiling if and only if nothing was reserved or the size is the same |
| Preallocation.WritableFile.PrepareWrite | include/leveldb/env.h:330-347 | the block count becomes the larger of the old one and the rounded-up end; keeps the reservations a tiling of whole blocks that covers every prepared write and exceeds the furthest by less than one block; does nothing with block size zero |
| Preallocation.RoundUp | include/leveldb/env.h:338-339 | rounding up covers the end by less than one block more |
| Preallocation.BlockSizeChange | include/leveldb/env.h:314-347 | after a change of block size the next reservation continues the tiling if and only if nothing was reserved or the size is the same |
| Preallocation.ReservedAfter | include/leveldb/env.h:314-347 | exactly which bytes are reserved after the first write with another block size, whether or not it reserves |
| Preallocation.CoveredAfterChange | include/leveldb/env.h:314-347 | that write is reserved in full if and only if the size did not grow or the write keeps clear of the bytes between the old end and the new one |
| Preallocation.UnreservedWrite | include/leveldb/env.h:287-347 | with block sizes 10 and then 100, a write of 40 bytes at offset 10 is prepared with none of its bytes reserved |

## Left out

- C++ memory orders weaker than one global order of atomic steps: acquire, release and relaxed accesses are all single steps.
- Reader progress under a writer that never stops: the bound on the loads of a search is in terms of the list at that instant, not at the start of the search.
- SkipLists.SkipList.NewNode: takes the node from the Dafny heap and not from the arena, so node addresses and sizes are not modelled.
- SkipLists.SkipList.RandomHeight: the distribution of heights is not modelled, only the value each seed gives.
- RandomNumbers.Random.Skewed: max_log is at most 30, since a larger shift overflows `int`.
- Arenas.Arena.Allocate: sizes and addresses are unbounded numbers, so `size_t` overflow is not modelled.
- Slices.GetLengthPrefixedSlicePtr: pointer addition does not overflow.
- BitStreams.BitStreamPutInt: offsets are unbounded numbers, so overflow of `offset + bits + 7` is not modelled.
- Preallocation.WritableFile.PrepareWrite: `size_t` wrap-around of the end of a write is not modelled.
- Fixed-width integers apart from the word the hash reads: storing and loading them is a plain copy.
- `OneIn` and `Random64`: a comparison of a draw with zero, and a wrapper of a library generator.
- `DB`, `DBImpl`, `MemTable`, `VersionSet`, `Block`, `WriteBatch` and their relatives: declarations or empty bodies.
- The rest of `Env`, `Options`, `Statistics`, `Status` and `Mutex`: operating-system calls, plain data, or bodies that are not shown.
