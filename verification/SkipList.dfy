/**
 The skip list as a heap of nodes that `Insert` updates in place.
 */
module SkipLists {
  import opened Bits
  import opened Chains
  import opened LevelOrder
  import opened Lists
  import opened Ordering
  import opened RandomNumbers

  class Node<Key> {
    const key: Key
    var next: seq<Link<Node<Key>>>

    constructor (key: Key, height: nat)
      ensures this.key == key && next == seq(height, _ => Unset)
    {
      this.key := key;
      next := seq(height, _ => Unset);
    }

    method Next(n: nat) returns (x: Node?<Key>)
      requires n < |next| && next[n] != Unset
      ensures LinkTo(x) == next[n]
    {
      x := if next[n].To? then next[n].node else null;
    }

    method SetNext(n: nat, x: Node?<Key>)
      requires n < |next|
      modifies this`next
      ensures next == old(next)[n := LinkTo(x)]
    {
      next := next[n := LinkTo(x)];
    }
  }

  function LinkTo<Key>(x: Node?<Key>): Link<Node<Key>> {
    if x == null then Null else To(x)
  }

  ghost function PoolOf<Key>(head: Node<Key>, nodes: set<Node<Key>>): (p: Pool<Node<Key>, Key>)
    reads nodes
    ensures p.head == head
  {
    Pool(head, map n | n in nodes :: n.key, map n | n in nodes :: n.next)
  }

  ghost function HeightsOf<Key>(nodes: set<Node<Key>>): map<Node<Key>, nat>
    reads nodes
  {
    map n | n in nodes :: |n.next|
  }

  /** Reading the heights off the nodes says that every node is linked on all its levels. */
  lemma SettledHeights<Key(!new)>(cmp: Comparator<Key>, head: Node<Key>, nodes: set<Node<Key>>, l: List<Node<Key>, Key>)
    requires Inv(cmp, l) && l.pool == PoolOf(head, nodes)
    ensures Settled(l) <==> l.linked == HeightsOf(nodes)
  {
    assert l.linked.Keys == nodes;
    assert forall n :: n in nodes ==> l.pool.Height(n) == |n.next|;
  }

  /** The height drawn from a generator in state `seed` when `height` was reached so far, and the state it is left in. */
  function Roll(seed: nat, height: nat): (r: (nat, nat))
    requires 1 <= height <= MAX_HEIGHT
    ensures 1 <= r.0 <= MAX_HEIGHT
    decreases MAX_HEIGHT - height
  {
    if height < MAX_HEIGHT then
      var s := Draw(seed);
      if And(s, 4) == 0 then Roll(s, height + 1) else (height, s)
    else (height, seed)
  }

  /** The state of the generator after n draws. */
  function Drawn(seed: nat, n: nat): nat {
    if n == 0 then seed else Draw(Drawn(seed, n - 1))
  }

  /** Bit 2 of the n-th draw. */
  predicate Stops(seed: nat, n: nat) {
    Drawn(seed, n) / 4 % 2 == 1
  }

  /** The height is the number of the first draw with bit 2 set, or 12 when the first eleven have it clear. */
  predicate HeightDrawn(seed: nat, height: nat, after: nat) {
    && 1 <= height <= 12
    && (forall j :: 1 <= j < height ==> !Stops(seed, j))
    && (height < 12 ==> Stops(seed, height))
    && after == Drawn(seed, if height < 12 then height else 11)
  }

  lemma {:induction false} RollFrom(seed: nat, done: nat, height: nat)
    requires 1 <= height <= MAX_HEIGHT && done == height - 1
    requires forall j :: 1 <= j < height ==> !Stops(seed, j)
    ensures var (h, s) := Roll(Drawn(seed, done), height); HeightDrawn(seed, h, s)
    decreases MAX_HEIGHT - height
  {
    hide And, Draw;
    if height < MAX_HEIGHT {
      var s := Draw(Drawn(seed, done));
      assert s == Drawn(seed, height);
      AndFour(s);
      if And(s, 4) == 0 {
        RollFrom(seed, done + 1, height + 1);
      }
    }
  }

  class SkipList<Key(!new)> {
    const cmp: Comparator<Key>
    const head: Node<Key>
    const prev: array<Node<Key>>
    const rnd: Random
    var maxHeight: nat

    /** All nodes, the nodes met along each level, and the state of the upper levels. */
    ghost var nodes: set<Node<Key>>
    ghost var chains: seq<seq<Node<Key>>>
    ghost var dirty: set<nat>
    ghost var broken: set<nat>

    ghost function Value(): List<Node<Key>, Key>
      reads this, nodes, prev
    {
      List(PoolOf(head, nodes), maxHeight, prev[..], chains, HeightsOf(nodes))
    }

    ghost predicate Valid()
      reads this, nodes, prev, rnd
    {
      && prev.Length == MAX_HEIGHT
      && rnd.Valid()
      && Inv(cmp, Value())
      && OrderInv(cmp, Value(), dirty, broken)
    }

    /** The keys in list order. */
    ghost function Keys(): seq<Key>
      requires Valid()
      reads this, nodes, prev, rnd
    {
      Contents(cmp, Value())
    }

    /** The first node at or after `key` on level 0. */
    ghost function Target(key: Key): Link<Node<Key>>
      requires Valid()
      reads this, nodes, prev, rnd
    {
      InvKeyed(cmp, Value(), 0);
      FirstAtLeast(cmp, PoolOf(head, nodes), chains[0], key)
    }

    /** The gap behind the remembered `prev[0]` is the one where `key` belongs. */
    ghost predicate HintApplies(key: Key)
      requires Valid()
      reads this, nodes, prev, rnd
    {
      var p := PoolOf(head, nodes);
      && !LinkLess(cmp, p, p.Slot(prev[0], 0), key)
      && (prev[0] == head || NodeLess(cmp, p, prev[0], key))
    }

    /** The levels above 0 that are out of key order are exactly those in `broken`. */
    lemma BrokenLevels()
      requires Valid()
      ensures |chains| == MAX_HEIGHT
      ensures forall i :: 1 <= i < MAX_HEIGHT ==> (Sorted(cmp, Value().pool, chains[i]) <==> i !in broken)
    {
    }

    constructor (cmp: Comparator<Key>, zero: Key)
      requires TotalPreorder(cmp)
      ensures Valid() && fresh(nodes) && fresh(prev) && fresh(rnd)
      ensures Keys() == [] && dirty == broken == {}
      ensures this.cmp == cmp && rnd.seed == 0x5eadbeef
      ensures prev[0] == head && |head.next| == 12 && maxHeight == 1 && forall i :: 0 <= i < 12 ==> head.next[i] == Null
    {
      this.cmp := cmp;
      var h := new Node<Key>(zero, MAX_HEIGHT);
      head := h;
      maxHeight := 1;
      prev := new Node<Key>[MAX_HEIGHT](_ => h);
      rnd := new Random(0xdeadbeef);
      nodes := {h};
      chains := seq(MAX_HEIGHT, _ => [h]);
      dirty, broken := {}, {};
      new;
      CutSeed();
      hide Inv, OrderInv, Contents, TotalPreorder, PoolOf, HeightsOf;
      ClearLinks();
      EmptyValue();
    }

    static lemma CutSeed()
      ensures 0xdeadbeef % 0x8000_0000 == 0x5eadbeef
    {
      DivUnique(0xdeadbeef, 0x8000_0000, 1, 0x5eadbeef);
    }

    method ClearLinks()
      requires prev.Length == |head.next| == MAX_HEIGHT
      modifies head`next, prev
      ensures |head.next| == MAX_HEIGHT
      ensures forall i :: 0 <= i < MAX_HEIGHT ==> head.next[i] == Null && prev[i] == head
    {
      for i := 0 to MAX_HEIGHT
        invariant |head.next| == MAX_HEIGHT
        invariant forall j :: 0 <= j < i ==> head.next[j] == Null && prev[j] == head
      {
        head.SetNext(i, null);
        prev[i] := head;
      }
    }

    lemma EmptyValue()
      requires TotalPreorder(cmp) && maxHeight == 1 && nodes == {head}
      requires prev.Length == |head.next| == |chains| == MAX_HEIGHT
      requires forall i :: 0 <= i < MAX_HEIGHT ==> prev[i] == head
      requires forall i :: 0 <= i < MAX_HEIGHT ==> head.next[i] == Null
      requires forall i :: 0 <= i < MAX_HEIGHT ==> chains[i] == [head]
      ensures Inv(cmp, Value()) && OrderInv(cmp, Value(), {}, {}) && Contents(cmp, Value()) == []
    {
      hide Inv, OrderInv, TotalPreorder, Contents;
      ghost var l := Value();
      assert l.pool.links == map[head := head.next];
      assert l.linked == map[head := MAX_HEIGHT];
      EmptyInv(cmp, l);
      EmptyOrder(cmp, l);
    }

    /** `n` is a node whose key is below `key`. */
    predicate KeyIsAfterNode(key: Key, n: Node?<Key>) {
      n != null && cmp(n.key, key) < 0
    }

    /**
     Fast path: reuse the predecessor of the last insertion.  Otherwise search all levels,
     leaving in `p` the node after which each level was left.
     */
    method FindGreatOrEqual(key: Key, p: array?<Node<Key>>) returns (r: Node?<Key>)
      requires Valid()
      requires p == null || p == prev
      modifies p
      ensures LinkTo(r) == old(Target(key))
      ensures Value() == old(Value()).(prev := prev[..])
      ensures Inv(cmp, Value())
      ensures p != null && old(HintApplies(key)) ==> prev[..] == old(prev[..])
      ensures p != null ==> OrderInv(cmp, Value(), if old(HintApplies(key)) then dirty else {}, broken)
      ensures p != null ==> Gap(cmp, Value(), key)
      ensures p != null ==> IndexOf(chains[0], prev[0]) == Rank(cmp, PoolOf(head, nodes), chains[0], key)
    {
      hide Inv, OrderInv, Structure, PoolOf, HeightsOf;
      ghost var l := Value();
      Shape(cmp, l);
      StartSearch(cmp, l, key);
      if p != null {
        var next := LoadHint(l);
        if !KeyIsAfterNode(key, next) && (p[0] == head || KeyIsAfterNode(key, p[0])) {
          StopSplits(cmp, l, prev[0], key);
          return next;
        }
      }
      r := Search(key, p, l);
      if p != null {
        assert PoolOf(head, nodes) == l.pool && HeightsOf(nodes) == l.linked;
        Searched(cmp, l, prev[..], key, dirty, broken);
        StopSplits(cmp, l, prev[0], key);
      }
    }

    method LoadHint(ghost l: List<Node<Key>, Key>) returns (next: Node?<Key>)
      requires Valid() && l == Value()
      ensures LinkTo(next) == l.pool.Slot(prev[0], 0)
      ensures forall key :: KeyIsAfterNode(key, next) <==> LinkLess(cmp, l.pool, LinkTo(next), key)
      ensures forall key :: KeyIsAfterNode(key, prev[0]) <==> NodeLess(cmp, l.pool, prev[0], key)
    {
      SlotReady(cmp, l, 0, prev[0]);
      Follow(cmp, l, 0, prev[0]);
      InvKeyed(cmp, l, 0);
      next := prev[0].Next(0);
    }

    /** The search through all levels, from the top; `l` is the list as it stands. */
    method Search(key: Key, p: array?<Node<Key>>, ghost l: List<Node<Key>, Key>) returns (r: Node?<Key>)
      requires Inv(cmp, l) && l.pool == PoolOf(head, nodes) && maxHeight == l.maxHeight
      requires p != null ==> p.Length == MAX_HEIGHT
      modifies p
      ensures |l.chains[0]| > 0 && LinkTo(r) == FirstAtLeast(cmp, l.pool, l.chains[0], key)
      ensures p != null ==> Recorded(cmp, l, 0, old(p[..]), p[..], key)
    {
      hide Inv, Standing, Bracketed, PoolOf;
      var x: Node<Key> := head;
      var level := maxHeight - 1;
      StartSearch(cmp, l, key);
      while true
        invariant 0 <= level < l.maxHeight && l.pool == PoolOf(head, nodes)
        invariant Structure(l) && Standing(cmp, l, level, x, key) && x in l.chains[level]
        invariant p != null ==> Recorded(cmp, l, level + 1, old(p[..]), p[..], key)
        decreases level, |l.chains[level]| - IndexOf(l.chains[level], x)
      {
        var next := Load(x, level, key, l);
        if KeyIsAfterNode(key, next) {
          x := next;
        } else {
          if p != null {
            RecordLevel(cmp, l, level, old(p[..]), p[..], x, key);
            p[level] := x;
          }
          if level == 0 {
            StopSplits(cmp, l, x, key);
            return next;
          }
          Descend(cmp, l, level, level - 1, x);
          level := level - 1;
        }
      }
    }

    /** One load of a search; `l` is the list as it stands. */
    method Load(x: Node<Key>, level: nat, key: Key, ghost l: List<Node<Key>, Key>) returns (next: Node?<Key>)
      requires Inv(cmp, l) && l.pool == PoolOf(head, nodes)
      requires Standing(cmp, l, level, x, key)
      ensures LinkTo(next) == l.pool.Slot(x, level)
      ensures next != null ==> next in l.chains[level]
                               && IndexOf(l.chains[level], next) == IndexOf(l.chains[level], x) + 1
      ensures KeyIsAfterNode(key, next) ==> Standing(cmp, l, level, next, key)
      ensures !KeyIsAfterNode(key, next) ==> Bracketed(cmp, l, level, x, key)
    {
      Advance(cmp, l, level, x, key);
      next := LoadLink(x, level, l);
    }

    method LoadLink(x: Node<Key>, level: nat, ghost l: List<Node<Key>, Key>) returns (next: Node?<Key>)
      requires Inv(cmp, l) && l.pool == PoolOf(head, nodes) && level < MAX_HEIGHT && x in l.chains[level]
      ensures LinkTo(next) == l.pool.Slot(x, level)
      ensures next != null ==> next in l.chains[level]
                               && IndexOf(l.chains[level], next) == IndexOf(l.chains[level], x) + 1
    {
      SlotReady(cmp, l, level, x);
      Follow(cmp, l, level, x);
      next := x.Next(level);
    }

    method RandomHeight() returns (height: nat)
      requires rnd.Valid()
      modifies rnd
      ensures rnd.Valid()
      ensures (height, rnd.seed) == Roll(old(rnd.seed), 1) && HeightDrawn(old(rnd.seed), height, rnd.seed)
    {
      RollFrom(rnd.seed, 0, 1);
      hide HeightDrawn;
      height := 1;
      while height < MAX_HEIGHT
        invariant 1 <= height <= MAX_HEIGHT && rnd.Valid()
        invariant Roll(rnd.seed, height) == Roll(old(rnd.seed), 1)
      {
        var bits := rnd.Next();
        if And(bits, 4) != 0 {
          return;
        }
        height := height + 1;
      }
    }

    /** Links a new node into every level below its height, from level 0 upwards. */
    method Splice(key: Key, height: nat, ghost l: List<Node<Key>, Key>) returns (x: Node<Key>, ghost m: List<Node<Key>, Key>)
      requires Inv(cmp, l) && l.pool == PoolOf(head, nodes) && l.linked == HeightsOf(nodes)
      requires prev.Length == MAX_HEIGHT && l.prev == prev[..]
      requires 1 <= height <= l.maxHeight
      requires Gap(cmp, l, key)
      modifies this`nodes, nodes`next
      ensures fresh(x) && nodes == old(nodes) + {x} && |x.next| == height
      ensures Inv(cmp, m) && m.pool == PoolOf(head, nodes) && m.linked == HeightsOf(nodes)
      ensures m.maxHeight == l.maxHeight && m.prev == l.prev
      ensures Inserted(l, m.(prev := l.prev[0 := x]), x, key, height)
      ensures multiset(Contents(cmp, m)) == multiset(Contents(cmp, l)) + multiset{key}
    {
      hide Inv, Gap, Contents, Linking, Inserted, Structure, Settled, PoolOf, HeightsOf;
      Shape(cmp, l);
      SettledHeights(cmp, head, nodes, l);
      x := NewNode(key, height, l);
      StartLinking(cmp, l, x, key, height);
      m := LinkLevels(x, key, height, l);
      DuringLinking(cmp, l, m, x, key, height, height);
      EndLinking(cmp, l, m, x, key, height);
      SettledHeights(cmp, head, nodes, m);
      PoolHeight(x);
    }

    lemma PoolHeight(x: Node<Key>)
      requires x in nodes
      ensures PoolOf(head, nodes).Height(x) == |x.next|
    {
    }

    /** The loop of an insertion; `l` is the list without the new node. */
    method LinkLevels(x: Node<Key>, key: Key, height: nat, ghost l: List<Node<Key>, Key>) returns (ghost m: List<Node<Key>, Key>)
      requires Inv(cmp, l) && prev.Length == MAX_HEIGHT && l.prev == prev[..] && 1 <= height <= l.maxHeight
      requires forall j :: 0 <= j < MAX_HEIGHT ==> l.prev[j] in l.chains[j]
      requires var n := AddNode(l, x, key, height);
               Inv(cmp, n) && n.pool == PoolOf(head, nodes) && Linking(l, n, x, key, height, 0) && Gap(cmp, n, key)
               && Contents(cmp, n) == Contents(cmp, l)
      modifies nodes`next
      ensures Inv(cmp, m) && m.pool == PoolOf(head, nodes) && Linking(l, m, x, key, height, height)
      ensures multiset(Contents(cmp, m)) == multiset(Contents(cmp, l)) + multiset{key}
    {
      hide Inv, Gap, Contents, Linking, Structure, Attach, PoolOf;
      Shape(cmp, l);
      m := AddNode(l, x, key, height);
      var i := 0;
      while i < height
        invariant 0 <= i <= height
        invariant Inv(cmp, m) && m.pool == PoolOf(head, nodes)
        invariant Linking(l, m, x, key, height, i)
        invariant i == 0 ==> Gap(cmp, m, key)
        invariant multiset(Contents(cmp, m)) == multiset(Contents(cmp, l)) + if i == 0 then multiset{} else multiset{key}
      {
        DuringLinking(cmp, l, m, x, key, height, i);
        LinkLevel(x, i, m);
        LinkStep(cmp, l, m, x, key, height, i);
        m := Attach(Fill(m, x, i), x, i);
        i := i + 1;
      }
    }

    method NewNode(key: Key, height: nat, ghost l: List<Node<Key>, Key>) returns (x: Node<Key>)
      requires Inv(cmp, l) && l.pool == PoolOf(head, nodes)
      modifies this`nodes
      ensures fresh(x) && nodes == old(nodes) + {x} && x !in l.linked
      ensures PoolOf(head, nodes) == l.pool.Add(x, key, height)
    {
      hide AllChains, Sorted, TotalPreorder, Membership;
      assert l.linked.Keys == nodes;
      x := new Node<Key>(key, height);
      nodes := nodes + {x};
    }

    /** One store to a link slot. */
    method StoreLink(x: Node<Key>, i: nat, next: Node?<Key>)
      requires x in nodes && i < |x.next|
      modifies nodes`next
      ensures PoolOf(head, nodes) == old(PoolOf(head, nodes)).Store(x, i, LinkTo(next))
    {
      x.SetNext(i, next);
    }

    /** The two stores of one level; `m` is the list before them. */
    method LinkLevel(x: Node<Key>, i: nat, ghost m: List<Node<Key>, Key>)
      requires Inv(cmp, m) && m.pool == PoolOf(head, nodes)
      requires prev.Length == MAX_HEIGHT && m.prev == prev[..]
      requires x in m.linked && i < m.pool.Height(x) && i < MAX_HEIGHT
      modifies nodes`next
      ensures PoolOf(head, nodes) == Attach(Fill(m, x, i), x, i).pool
    {
      hide Inv, IsChain, Structure;
      Shape(cmp, m);
      SlotReady(cmp, m, i, prev[i]);
      var next := prev[i].Next(i);
      StoreLink(x, i, next);
      StoreHeight(m.pool, x, i, LinkTo(next), prev[i]);
      StoreLink(prev[i], i, x);
    }

    /** The levels above the current height start at the head. */
    method Grow(height: nat, ghost l: List<Node<Key>, Key>)
      requires Inv(cmp, l) && prev.Length == MAX_HEIGHT
      requires l.prev == prev[..] && maxHeight == l.maxHeight && head == l.pool.head
      requires height <= MAX_HEIGHT
      modifies this`maxHeight, prev
      ensures prev[..] == old(prev[..])
      ensures maxHeight == if height > l.maxHeight then height else l.maxHeight
    {
      if height > maxHeight {
        for i := maxHeight to height
          invariant prev[..] == l.prev && maxHeight == l.maxHeight
        {
          TopLevel(cmp, l, i);
          prev[i] := head;
        }
        maxHeight := height;
      }
    }

    method Insert(key: Key)
      requires Valid()
      modifies this, nodes`next, prev, rnd
      ensures Valid() && fresh(nodes - old(nodes))
      ensures multiset(Keys()) == old(multiset(Keys())) + multiset{key}
      ensures rnd.seed == Roll(old(rnd.seed), 1).1
      ensures HeightDrawn(old(rnd.seed), |prev[0].next|, rnd.seed)
      ensures maxHeight == if |prev[0].next| > old(maxHeight) then |prev[0].next| else old(maxHeight)
      ensures fresh(prev[0]) && prev[0].key == key
      ensures |prev[0].next| > 0 && prev[0].next[0] == old(Target(key))
      ensures var reused := if old(HintApplies(key)) then old(dirty) else {};
              var levels := Below(Roll(old(rnd.seed), 1).0);
              dirty == reused + levels && broken == old(broken) + reused * levels
    {
      hide Inv, OrderInv, PoolOf, HeightsOf, Gap, Contents, Inserted, HintApplies, Below, Roll, HeightDrawn;
      ghost var reused := if HintApplies(key) then dirty else {};
      ghost var l0 := Value();
      var next := FindGreatOrEqual(key, prev);
      ghost var l1 := Value();
      var height := RandomHeight();
      Shape(cmp, l1);
      Grow(height, l1);
      Raise(cmp, l1, maxHeight);
      RaiseOrder(cmp, l1, maxHeight, reused, broken);
      assert Value() == l1.(maxHeight := maxHeight);
      SameContents(cmp, l0, l1);
      SameContents(cmp, l1, Value());
      InsertAtGap(key, height, reused);
    }

    method InsertAtGap(key: Key, height: nat, ghost reused: set<nat>)
      requires prev.Length == MAX_HEIGHT && rnd.Valid() && 1 <= height <= maxHeight
      requires Inv(cmp, Value()) && Gap(cmp, Value(), key) && OrderInv(cmp, Value(), reused, broken)
      modifies this, nodes`next, prev
      ensures fresh(prev[0]) && prev[0].key == key && |prev[0].next| == height > 0 && maxHeight == old(maxHeight)
      ensures |old(chains)| > 0 && |old(chains[0])| > 0
              && prev[0].next[0] == old(FirstAtLeast(cmp, PoolOf(head, nodes), chains[0], key))
      ensures Valid() && fresh(nodes - old(nodes))
      ensures multiset(Keys()) == multiset(old(Contents(cmp, Value()))) + multiset{key}
      ensures dirty == reused + Below(height) && broken == old(broken) + reused * Below(height)
    {
      hide Inv, OrderInv, PoolOf, HeightsOf, Gap, Contents, Inserted, Below;
      ghost var l := Value();
      Shape(cmp, l);
      var x: Node<Key>;
      ghost var m;
      x, m := Splice(key, height, l);
      ghost var m' := m.(prev := l.prev[0 := x]);
      NewHint(cmp, l, m, x, key, height);
      InsertOrder(cmp, l, m', x, key, height, reused, broken);
      chains := m.chains;
      dirty, broken := reused + Below(height), broken + reused * Below(height);
      prev[0] := x;
      assert Value() == m';
      InsertedSlot(cmp, l, m', x, key, height);
      HeadNode(x);
    }

    lemma HeadNode(x: Node<Key>)
      requires x in nodes
      ensures PoolOf(head, nodes).keys == map n | n in nodes :: n.key
      ensures PoolOf(head, nodes).Slot(x, 0) != Unset ==> |x.next| > 0 && x.next[0] == PoolOf(head, nodes).Slot(x, 0)
    {
    }

    method Contains(key: Key) returns (found: bool)
      requires Valid()
      ensures found <==> Member(cmp, Keys(), key)
    {
      var x := FindGreatOrEqual(key, null);
      FoundIsMember(cmp, Value(), key);
      InvKeyed(cmp, Value(), 0);
      found := x != null && cmp(key, x.key) == 0;
    }

    /** A link of the pool is the slot of the node. */
    lemma SlotOfNode()
      requires Valid()
      ensures forall x :: x in chains[0] ==> x in nodes && 0 < |x.next| && x.next[0] == PoolOf(head, nodes).Slot(x, 0)
    {
      hide OrderInv;
      forall x | x in chains[0]
        ensures x in nodes && 0 < |x.next| && x.next[0] == PoolOf(head, nodes).Slot(x, 0)
      {
        SlotReady(cmp, Value(), 0, x);
      }
    }

    /** The last node below `key`, or the head: the level-0 predecessor of the search result. */
    method FindLessThan(key: Key) returns (x: Node<Key>)
      requires Valid()
      ensures x in chains[0] && IndexOf(chains[0], x) == Rank(cmp, PoolOf(head, nodes), chains[0], key)
      ensures 0 < |x.next| && x.next[0] == Target(key)
    {
      SlotOfNode();
      hide Inv, OrderInv, PoolOf, HeightsOf;
      ghost var l := Value();
      x := head;
      var level := maxHeight - 1;
      StartSearch(cmp, l, key);
      while true
        invariant 0 <= level < maxHeight
        invariant Standing(cmp, l, level, x, key)
        decreases level, |chains[level]| - IndexOf(chains[level], x)
      {
        var next := Load(x, level, key, l);
        if next == null || cmp(next.key, key) >= 0 {
          if level == 0 {
            StopSplits(cmp, l, x, key);
            return;
          }
          Descend(cmp, l, level, level - 1, x);
          level := level - 1;
        } else {
          x := next;
        }
      }
    }

    /** The last node of the list, or the head. */
    method FindLast() returns (x: Node<Key>)
      requires Valid()
      ensures |chains[0]| > 0 && x == chains[0][|chains[0]| - 1]
    {
      hide Inv, OrderInv, PoolOf, HeightsOf;
      ghost var l := Value();
      x := head;
      var level := maxHeight - 1;
      Shape(cmp, l);
      InvKeyed(cmp, l, level);
      while true
        invariant 0 <= level < maxHeight
        invariant x in chains[level]
        decreases level, |chains[level]| - IndexOf(chains[level], x)
      {
        var next := LoadLink(x, level, l);
        if next == null {
          if level == 0 {
            LastOfLevel(cmp, l, 0, x);
            return;
          }
          Descend(cmp, l, level, level - 1, x);
          level := level - 1;
        } else {
          x := next;
        }
      }
    }
  }
}
