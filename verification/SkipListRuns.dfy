/**
 Whole runs of the sequential skip list.
 */
module SkipListRuns {
  import opened Bits
  import opened Chains
  import opened LevelHistory
  import opened LevelOrder
  import opened Lists
  import opened Ordering
  import opened RandomNumbers
  import opened SkipLists

  /** The state in which the constructor leaves the generator. */
  const SEED: nat := 0x5eadbeef

  // ---- what a run leaves behind ----------------------------------------------------------

  /** What the remembered node says about the keys inserted so far. */
  ghost predicate HintAfter<Key(!new)>(list: SkipList<Key>, keys: seq<Key>)
    requires list.Valid()
    reads list, list.nodes, list.prev, list.rnd
  {
    var p, x, n := list.Value().pool, list.prev[0], |keys| - 1;
    if keys == [] then
      x == list.head && p.Slot(x, 0) == Null
    else
      && x != list.head && x.key == keys[n]
      && forall k :: LinkLess(list.cmp, p, p.Slot(x, 0), k) <==> SomeBetween(list.cmp, keys[..n], keys[n], k)
  }

  /**
   The list as it stands after inserting `keys`, in this order, into a new list: which levels are
   dirty and which are out of order depends on nothing but the keys.
   */
  ghost predicate Ran<Key(!new)>(list: SkipList<Key>, keys: seq<Key>)
    reads list, list.nodes, list.prev, list.rnd
  {
    && list.Valid()
    && multiset(list.Keys()) == multiset(keys)
    && list.rnd.seed == SeedAfter(SEED, |keys|)
    && HintAfter(list, keys)
    && Tracked(list.cmp, keys, list.dirty, list.broken)
  }

  ghost predicate Tracked<Key(!new)>(cmp: Comparator<Key>, keys: seq<Key>, dirty: set<nat>, broken: set<nat>) {
    forall i: nat :: 1 <= i < MAX_HEIGHT ==>
      && (i in dirty <==> Touched(cmp, keys, SEED, i, |keys|))
      && (i in broken <==> Disordered(cmp, keys, SEED, i))
  }

  /** The fast path is taken exactly when the key follows the one inserted before it. */
  lemma HintIsFollowing<Key(!new)>(list: SkipList<Key>, keys: seq<Key>, key: Key)
    requires Ran(list, keys)
    ensures list.HintApplies(key) <==> Follows(list.cmp, keys + [key], |keys|)
  {
    var l := list.Value();
    Shape(list.cmp, l);
    InvKeyed(list.cmp, l, 0);
    assert l.prev[0] in l.chains[0];
    assert l.chains[0][IndexOf(l.chains[0], l.prev[0])] in l.pool.keys;
    if keys != [] {
      assert (keys + [key])[..|keys| - 1] == keys[..|keys| - 1];
    }
  }

  lemma SameBetween<Key(!new)>(cmp: Comparator<Key>, s: seq<Key>, t: seq<Key>, a: Key, c: Key)
    requires multiset(s) == multiset(t)
    ensures SomeBetween(cmp, s, a, c) ==> SomeBetween(cmp, t, a, c)
  {
    if SomeBetween(cmp, s, a, c) {
      var j :| 0 <= j < |s| && Between(cmp, a, s[j], c);
      assert s[j] in multiset(t);
      var k :| 0 <= k < |t| && t[k] == s[j];
    }
  }

  /** What the new node will point at, in terms of the keys. */
  lemma TargetAmongKeys<Key(!new)>(list: SkipList<Key>, keys: seq<Key>, key: Key, k: Key)
    requires list.Valid() && multiset(list.Keys()) == multiset(keys)
    ensures LinkLess(list.cmp, list.Value().pool, list.Target(key), k) <==> SomeBetween(list.cmp, keys, key, k)
  {
    hide Inv, OrderInv;
    TargetBelow(list.cmp, list.Value(), key, k);
    SameBetween(list.cmp, list.Keys(), keys, key, k);
    SameBetween(list.cmp, keys, list.Keys(), key, k);
  }

  lemma TrackedStep<Key(!new)>(cmp: Comparator<Key>, keys: seq<Key>, key: Key, dirty: set<nat>, broken: set<nat>)
    requires Tracked(cmp, keys, dirty, broken)
    ensures var reused := if Follows(cmp, keys + [key], |keys|) then dirty else {};
            var levels := Below(HeightAt(SEED, |keys|));
            Tracked(cmp, keys + [key], reused + levels, broken + reused * levels)
  {
    hide Touched, Disordered, Follows, HeightAt;
    var all, n := keys + [key], |keys|;
    var reused := if Follows(cmp, all, n) then dirty else {};
    var levels := Below(HeightAt(SEED, n));
    forall i: nat | 1 <= i < MAX_HEIGHT
      ensures i in reused + levels <==> Touched(cmp, all, SEED, i, n + 1)
      ensures i in broken + reused * levels <==> Disordered(cmp, all, SEED, i)
    {
      assert Level(i);
      OneMore(cmp, keys, key, SEED, i);
    }
  }

  /** `target` leads to a node of the pool, below exactly those k that some key lies from `key` up to. */
  ghost predicate Expected<Key(!new)>(cmp: Comparator<Key>, keys: seq<Key>, key: Key, p: Pool<Node<Key>, Key>, target: Link<Node<Key>>) {
    && (target.To? ==> target.node in p.keys && p.keys[target.node] == target.node.key)
    && forall k :: LinkLess(cmp, p, target, k) <==> SomeBetween(cmp, keys, key, k)
  }

  lemma TargetExpected<Key(!new)>(list: SkipList<Key>, keys: seq<Key>, key: Key)
    requires list.Valid() && multiset(list.Keys()) == multiset(keys)
    ensures Expected(list.cmp, keys, key, list.Value().pool, list.Target(key))
  {
    hide OrderInv, SomeBetween, LinkLess;
    InvKeyed(list.cmp, list.Value(), 0);
    forall k
      ensures LinkLess(list.cmp, list.Value().pool, list.Target(key), k) <==> SomeBetween(list.cmp, keys, key, k)
    {
      TargetAmongKeys(list, keys, key, k);
    }
  }

  lemma NewHintAfter<Key(!new)>(list: SkipList<Key>, keys: seq<Key>, key: Key, before: Pool<Node<Key>, Key>)
    requires list.Valid() && list.prev[0] != list.head && list.prev[0].key == key
    requires |list.prev[0].next| > 0 && Expected(list.cmp, keys, key, before, list.prev[0].next[0])
    ensures HintAfter(list, keys + [key])
  {
    var l, target := list.Value(), list.prev[0].next[0];
    Shape(list.cmp, l);
    SlotReady(list.cmp, l, 0, l.prev[0]);
    Follow(list.cmp, l, 0, l.prev[0]);
    assert l.pool.Slot(l.prev[0], 0) == target;
    assert (keys + [key])[..|keys|] == keys;
    assert forall k :: LinkLess(list.cmp, l.pool, target, k) <==> LinkLess(list.cmp, before, target, k);
  }

  /** What a run says before one more insertion. */
  lemma BeforeInsert<Key(!new)>(list: SkipList<Key>, keys: seq<Key>, key: Key)
    requires Ran(list, keys)
    ensures multiset(list.Keys()) == multiset(keys) && list.rnd.seed == SeedAfter(SEED, |keys|)
    ensures Expected(list.cmp, keys, key, list.Value().pool, list.Target(key))
    ensures var reused := if list.HintApplies(key) then list.dirty else {};
            var levels := Below(Roll(list.rnd.seed, 1).0);
            Tracked(list.cmp, keys + [key], reused + levels, list.broken + reused * levels)
  {
    hide Inv, OrderInv, Expected, Tracked, Below, Roll, Follows;
    HintIsFollowing(list, keys, key);
    TargetExpected(list, keys, key);
    TrackedStep(list.cmp, keys, key, list.dirty, list.broken);
  }

  /** Inserts one more key; `keys` are those inserted before, if the list was built by insertions alone. */
  method InsertNext<Key(!new)>(list: SkipList<Key>, ghost keys: seq<Key>, key: Key)
    requires list.Valid()
    modifies list, list.nodes`next, list.prev, list.rnd
    ensures list.Valid() && fresh(list.nodes - old(list.nodes))
    ensures multiset(list.Keys()) == old(multiset(list.Keys())) + multiset{key}
    ensures old(Ran(list, keys)) ==> Ran(list, keys + [key])
  {
    hide Inv, OrderInv, Tracked, HintAfter, Below, Roll, Expected, Contents, PoolOf, HeightsOf, SkipList.HintApplies, SkipList.Target;
    ghost var ran, p := Ran(list, keys), list.Value().pool;
    if ran {
      BeforeInsert(list, keys, key);
    }
    list.Insert(key);
    if ran {
      NewHintAfter(list, keys, key, p);
    }
  }

  /** Inserts all keys; `before` are those inserted earlier, if the list was built by insertions alone. */
  method InsertAll<Key(!new)>(list: SkipList<Key>, ghost before: seq<Key>, keys: seq<Key>)
    requires list.Valid()
    modifies list, list.nodes`next, list.prev, list.rnd
    ensures list.Valid() && fresh(list.nodes - old(list.nodes))
    ensures multiset(list.Keys()) == old(multiset(list.Keys())) + multiset(keys)
    ensures old(Ran(list, before)) ==> Ran(list, before + keys)
  {
    hide SkipList.Valid, SkipList.Keys, Ran;
    assert before + keys[..0] == before;
    for i := 0 to |keys|
      invariant list.Valid() && fresh(list.nodes - old(list.nodes))
      invariant multiset(list.Keys()) == old(multiset(list.Keys())) + multiset(keys[..i])
      invariant old(Ran(list, before)) ==> Ran(list, before + keys[..i])
    {
      InsertNext(list, before + keys[..i], keys[i]);
      assert keys[..i + 1] == keys[..i] + [keys[i]];
      assert before + keys[..i + 1] == (before + keys[..i]) + [keys[i]];
    }
    assert keys[..|keys|] == keys;
  }

  lemma NothingRan<Key(!new)>(list: SkipList<Key>)
    requires list.Valid() && list.Keys() == [] && list.dirty == list.broken == {} && list.rnd.seed == SEED
    requires list.prev[0] == list.head && |list.head.next| > 0 && list.head.next[0] == Null
    ensures Ran(list, [])
  {
    hide OrderInv;
    var l := list.Value();
    InvKeyed(list.cmp, l, 0);
    SlotReady(list.cmp, l, 0, list.head);
  }

  /**
   A list built from any keys in any order holds exactly those keys, in order, and has exactly the
   disordered levels out of order.
   */
  method Build<Key(!new)>(cmp: Comparator<Key>, zero: Key, keys: seq<Key>) returns (list: SkipList<Key>)
    requires TotalPreorder(cmp)
    ensures list.Valid() && list.cmp == cmp
    ensures Ordered(cmp, list.Keys()) && multiset(list.Keys()) == multiset(keys)
    ensures |list.chains| == MAX_HEIGHT
    ensures forall i :: 1 <= i < MAX_HEIGHT ==>
              (Sorted(cmp, list.Value().pool, list.chains[i]) <==> !Disordered(cmp, keys, SEED, i))
  {
    list := new SkipList<Key>(cmp, zero);
    NothingRan(list);
    hide Inv, OrderInv, Disordered, Sorted;
    assert [] + keys == keys;
    InsertAll(list, [], keys);
    ContentsOrdered(cmp, list.Value());
    list.BrokenLevels();
  }

  /** Such a list finds exactly the keys that compare equal to one of them. */
  method BuildAndLookUp<Key(!new)>(cmp: Comparator<Key>, zero: Key, keys: seq<Key>, key: Key) returns (found: bool)
    requires TotalPreorder(cmp)
    ensures found <==> Member(cmp, keys, key)
  {
    var list := Build(cmp, zero, keys);
    SameMembers(cmp, list.Keys(), keys, key);
    found := list.Contains(key);
  }

  lemma SameMembers<Key(!new)>(cmp: Comparator<Key>, s: seq<Key>, t: seq<Key>, key: Key)
    requires multiset(s) == multiset(t)
    ensures Member(cmp, s, key) <==> Member(cmp, t, key)
  {
    OneWay(cmp, s, t, key);
    OneWay(cmp, t, s, key);
  }

  lemma OneWay<Key(!new)>(cmp: Comparator<Key>, s: seq<Key>, t: seq<Key>, key: Key)
    requires multiset(s) == multiset(t)
    ensures Member(cmp, s, key) ==> Member(cmp, t, key)
  {
    if Member(cmp, s, key) {
      var j :| 0 <= j < |s| && cmp(key, s[j]) == 0;
      assert s[j] in multiset(t);
      var k :| 0 <= k < |t| && t[k] == s[j];
    }
  }

  // ---- the upper levels do lose their order ---------------------------------------------

  function Difference(a: int, b: int): int {
    a - b
  }

  /** One draw of a height, with the quotient of its reduction given. */
  lemma RollStep(seed: nat, height: nat, q: nat, next: nat)
    requires seed < M && seed * 16807 == q * 0x7fff_ffff + next && next < 0x7fff_ffff && 1 <= height < MAX_HEIGHT
    ensures Roll(seed, height) == if next / 4 % 2 == 0 then Roll(next, height + 1) else (height, next)
  {
    DivUnique(seed * A, M, q, next);
    AndFour(next);
  }

  lemma FirstHeight()
    ensures Roll(0x5eadbeef, 1) == (5, 31973901)
  {
    hide Roll;
    RollStep(0x5eadbeef, 1, 12431, 1624403320);
    RollStep(1624403320, 2, 12713, 386994929);
    RollStep(386994929, 3, 3028, 1643288587);
    RollStep(1643288587, 4, 12860, 2111581289);
    RollStep(2111581289, 5, 16526, 31973901);
  }

  lemma FifthHeight()
    ensures Roll(1646984870, 1) == (4, 1935795391)
  {
    hide Roll;
    RollStep(1646984870, 1, 12889, 1957983907);
    RollStep(1957983907, 2, 15323, 1943601968);
    RollStep(1943601968, 3, 15211, 744521659);
    RollStep(744521659, 4, 5826, 1935795391);
  }

  /** The heights that the seed 0xdeadbeef gives to the first five nodes: 5, 1, 1, 1, 4. */
  lemma FirstHeights()
    ensures Roll(0x5eadbeef, 1) == (5, 31973901)
    ensures Roll(31973901, 1) == (1, 514442357)
    ensures Roll(514442357, 1) == (1, 463531277)
    ensures Roll(463531277, 1) == (1, 1646984870)
    ensures Roll(1646984870, 1) == (4, 1935795391)
  {
    hide Roll;
    FirstHeight();
    RollStep(31973901, 1, 250, 514442357);
    RollStep(514442357, 1, 4026, 463531277);
    RollStep(463531277, 1, 3627, 1646984870);
    FifthHeight();
  }

  lemma FirstFive()
    ensures HeightAt(SEED, 0) == 5 && HeightAt(SEED, 1) == HeightAt(SEED, 2) == HeightAt(SEED, 3) == 1 && HeightAt(SEED, 4) == 4
  {
    hide Roll;
    FirstHeights();
    assert SeedAfter(SEED, 0) == 0x5eadbeef;
    assert SeedAfter(SEED, 1) == 31973901;
    assert SeedAfter(SEED, 2) == 514442357;
    assert SeedAfter(SEED, 3) == 463531277;
    assert SeedAfter(SEED, 4) == 1646984870;
  }

  /** Five ascending insertions into a new list put exactly the levels 1, 2 and 3 out of key order. */
  method FiveAscendingInserts() returns (list: SkipList<int>)
    ensures list.Valid() && list.cmp == Difference && |list.chains| == MAX_HEIGHT
    ensures forall i :: 1 <= i < MAX_HEIGHT ==> (Sorted(Difference, list.Value().pool, list.chains[i]) <==> i > 3)
  {
    hide HeightAt;
    FirstFive();
    forall i: nat | 1 <= i < MAX_HEIGHT
      ensures Disordered(Difference, [1, 2, 3, 4, 5], SEED, i) <==> i <= 3
    {
      IncreasingDisorders(Difference, [1, 2, 3, 4, 5], SEED, i);
      if i <= 3 {
        assert Reaches(SEED, i, 0) && Reaches(SEED, i, 4);
      }
    }
    hide SkipList.Valid, Disordered, Sorted;
    list := Build(Difference, 0, [1, 2, 3, 4, 5]);
  }
}
