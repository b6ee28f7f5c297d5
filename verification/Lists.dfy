/**
 What every reachable skip list satisfies, stated on values so that the sequential
 class and the interleaved machine share it.

 Upper levels need NOT be in key order: an insertion that reuses the predecessors
 left by the previous one may link a node behind the wrong neighbour above level 0.
 What always holds is that level 0 is sorted, that every level is a chain of exactly
 the nodes linked on it, and that the nodes of a level are also on the level below.
 */
module Lists {
  import opened Ordering
  import opened Chains

  const MAX_HEIGHT: nat := 12

  /**
   `prev` are the predecessors remembered by the last insertion; `linked[x]` is the
   number of levels on which `x` is reachable, counted from level 0 upwards.
   */
  datatype List<Id, Key> = List(
    pool: Pool<Id, Key>,
    maxHeight: nat,
    prev: seq<Id>,
    chains: seq<seq<Id>>,
    linked: map<Id, nat>)

  ghost predicate Structure<Id, Key>(l: List<Id, Key>) {
    && |l.chains| == |l.prev| == MAX_HEIGHT
    && 1 <= l.maxHeight <= MAX_HEIGHT
    && l.pool.keys.Keys == l.pool.links.Keys == l.linked.Keys
    && l.pool.head in l.linked && l.linked[l.pool.head] == MAX_HEIGHT
    && AllChains(l.pool, l.chains)
  }

  /** Level i holds exactly the nodes linked on more than i levels. */
  ghost predicate Membership<Id, Key>(l: List<Id, Key>)
    requires Structure(l)
  {
    && (forall i, x :: 0 <= i < MAX_HEIGHT && x in l.linked ==> (x in l.chains[i] <==> i < l.linked[x]))
    && (forall i, j :: 0 <= i < MAX_HEIGHT && 0 <= j < |l.chains[i]| ==> l.chains[i][j] in l.linked)
    && (forall x :: x in l.linked && x != l.pool.head ==> l.linked[x] <= l.maxHeight)
  }

  ghost predicate Inv<Id, Key(!new)>(cmp: Comparator<Key>, l: List<Id, Key>) {
    && TotalPreorder(cmp)
    && Structure(l)
    && Membership(l)
    && (forall i :: 0 <= i < MAX_HEIGHT ==> l.prev[i] in l.chains[i])
    && Sorted(cmp, l.pool, l.chains[0])
  }

  /** Every node is linked on all its levels: no insertion is under way. */
  ghost predicate Settled<Id, Key>(l: List<Id, Key>) {
    forall x :: x in l.linked ==> l.linked[x] == l.pool.Height(x)
  }

  ghost predicate Empty<Id, Key>(l: List<Id, Key>) {
    && l.maxHeight == 1
    && l.linked == map[l.pool.head := MAX_HEIGHT]
    && l.pool.keys.Keys == l.pool.links.Keys == {l.pool.head}
    && |l.pool.links[l.pool.head]| == MAX_HEIGHT
    && (forall i :: 0 <= i < MAX_HEIGHT ==> l.pool.links[l.pool.head][i] == Null)
    && |l.prev| == |l.chains| == MAX_HEIGHT
    && (forall i :: 0 <= i < MAX_HEIGHT ==> l.prev[i] == l.pool.head)
    && (forall i :: 0 <= i < MAX_HEIGHT ==> l.chains[i] == [l.pool.head])
  }

  lemma EmptyInv<Id, Key(!new)>(cmp: Comparator<Key>, l: List<Id, Key>)
    requires TotalPreorder(cmp) && Empty(l)
    ensures Inv(cmp, l) && Settled(l) && Contents(cmp, l) == []
  {
    assert l.pool.head in l.linked;
    forall i | 0 <= i < MAX_HEIGHT
      ensures IsChain(l.pool, i, l.chains[i]) && l.chains[i] == [l.pool.head]
    {
      assert LinkAfter(l.chains[i], 0) == Null;
    }
    assert l.pool.head in [l.pool.head];
  }

  // ---- consequences of the invariant ------------------------------------------

  lemma InvKeyed<Id, Key(!new)>(cmp: Comparator<Key>, l: List<Id, Key>, i: nat)
    requires Inv(cmp, l) && i < MAX_HEIGHT
    ensures Keyed(l.pool, l.chains[i]) && |l.chains[i]| > 0 && l.chains[i][0] == l.pool.head
    ensures Distinct(l.chains[i])
  {
    assert IsChain(l.pool, i, l.chains[i]);
    forall j | 0 <= j < |l.chains[i]|
      ensures l.chains[i][j] in l.pool.keys
    {
      assert l.chains[i][j] in l.linked;
    }
  }

  /** Where a search may stand at `level`: on that level's chain, at the head or below the key. */
  ghost predicate Standing<Id, Key>(cmp: Comparator<Key>, l: List<Id, Key>, level: nat, x: Id, key: Key)
    requires Structure(l)
  {
    && level < MAX_HEIGHT
    && x in l.chains[level]
    && (x == l.pool.head || NodeLess(cmp, l.pool, x, key))
  }

  /** The slot a search reads exists and was written. */
  lemma SlotReady<Id, Key(!new)>(cmp: Comparator<Key>, l: List<Id, Key>, level: nat, x: Id)
    requires Inv(cmp, l) && level < MAX_HEIGHT && x in l.chains[level]
    ensures x in l.pool.links && level < |l.pool.links[x]| && l.pool.links[x][level] != Unset
    ensures l.pool.Slot(x, level) == LinkAfter(l.chains[level], IndexOf(l.chains[level], x))
  {
    var c := l.chains[level];
    assert IsChain(l.pool, level, c);
    var j := IndexOf(c, x);
    assert l.pool.Slot(c[j], level) == LinkAfter(c, j);
  }

  /** A node on a level is on every level below. */
  lemma Descend<Id, Key(!new)>(cmp: Comparator<Key>, l: List<Id, Key>, level: nat, lower: nat, x: Id)
    requires Inv(cmp, l) && lower <= level < MAX_HEIGHT && x in l.chains[level]
    ensures x in l.chains[lower]
    ensures forall key :: Standing(cmp, l, level, x, key) ==> Standing(cmp, l, lower, x, key)
  {
    assert l.chains[level][IndexOf(l.chains[level], x)] in l.linked;
  }

  /** The link of a node on a level leads to the next node of that level. */
  lemma Follow<Id, Key(!new)>(cmp: Comparator<Key>, l: List<Id, Key>, level: nat, x: Id)
    requires Inv(cmp, l) && level < MAX_HEIGHT && x in l.chains[level]
    ensures var s := l.pool.Slot(x, level);
            s.To? ==> s.node in l.chains[level] && s.node in l.pool.keys && s.node != l.pool.head
                      && IndexOf(l.chains[level], s.node) == IndexOf(l.chains[level], x) + 1
  {
    SlotReady(cmp, l, level, x);
    InvKeyed(cmp, l, level);
    var c := l.chains[level];
    var j := IndexOf(c, x);
    if j + 1 < |c| {
      assert c[j + 1] in c && c[j + 1] in l.linked;
    }
  }

  /** Following a link keeps a search standing and brings it one position further. */
  lemma Advance<Id, Key(!new)>(cmp: Comparator<Key>, l: List<Id, Key>, level: nat, x: Id, key: Key)
    requires Inv(cmp, l) && Standing(cmp, l, level, x, key)
    ensures var s := l.pool.Slot(x, level);
            s.To? ==> s.node in l.chains[level] && IndexOf(l.chains[level], s.node) == IndexOf(l.chains[level], x) + 1
                      && s.node in l.pool.keys && s.node != l.pool.head
                      && (LinkLess(cmp, l.pool, s, key) ==> Standing(cmp, l, level, s.node, key))
  {
    Follow(cmp, l, level, x);
  }

  lemma LastOfLevel<Id, Key(!new)>(cmp: Comparator<Key>, l: List<Id, Key>, level: nat, x: Id)
    requires Inv(cmp, l) && level < MAX_HEIGHT && x in l.chains[level] && l.pool.Slot(x, level) == Null
    ensures |l.chains[level]| > 0 && x == l.chains[level][|l.chains[level]| - 1]
  {
    SlotReady(cmp, l, level, x);
  }

  lemma StartSearch<Id, Key(!new)>(cmp: Comparator<Key>, l: List<Id, Key>, key: Key)
    requires Inv(cmp, l)
    ensures Structure(l) && Standing(cmp, l, l.maxHeight - 1, l.pool.head, key)
  {
    InvKeyed(cmp, l, l.maxHeight - 1);
  }

  /** The gap behind `prev[0]` on level 0 is where `key` belongs. */
  ghost predicate Gap<Id, Key>(cmp: Comparator<Key>, l: List<Id, Key>, key: Key) {
    && |l.chains| > 0 && |l.prev| > 0 && l.prev[0] in l.chains[0]
    && Splits(cmp, l.pool, l.chains[0], key, IndexOf(l.chains[0], l.prev[0]))
  }

  /** A search that stops on level 0 has found the split of the whole list. */
  lemma StopSplits<Id, Key(!new)>(cmp: Comparator<Key>, l: List<Id, Key>, x: Id, key: Key)
    requires Inv(cmp, l) && Standing(cmp, l, 0, x, key)
    requires !LinkLess(cmp, l.pool, l.pool.Slot(x, 0), key)
    ensures Splits(cmp, l.pool, l.chains[0], key, IndexOf(l.chains[0], x))
    ensures IndexOf(l.chains[0], x) == Rank(cmp, l.pool, l.chains[0], key)
    ensures l.pool.Slot(x, 0) == FirstAtLeast(cmp, l.pool, l.chains[0], key)
  {
    var c := l.chains[0];
    InvKeyed(cmp, l, 0);
    SlotReady(cmp, l, 0, x);
    var r := IndexOf(c, x);
    assert r > 0 ==> c[r] != c[0];
    LocalSplit(cmp, l.pool, c, key, r);
    SplitIsRank(cmp, l.pool, c, key, r);
  }

  /** The keys in the list, in order. */
  ghost function Contents<Id, Key(!new)>(cmp: Comparator<Key>, l: List<Id, Key>): seq<Key>
    requires Inv(cmp, l)
  {
    InvKeyed(cmp, l, 0);
    KeysAlong(l.pool, l.chains[0])
  }

  ghost predicate Ordered<Key>(cmp: Comparator<Key>, s: seq<Key>) {
    forall j, k :: 0 <= j < k < |s| ==> cmp(s[j], s[k]) <= 0
  }

  lemma ContentsOrdered<Id, Key(!new)>(cmp: Comparator<Key>, l: List<Id, Key>)
    requires Inv(cmp, l)
    ensures Ordered(cmp, Contents(cmp, l))
  {
    var s := Contents(cmp, l);
    InvKeyed(cmp, l, 0);
    forall j, k | 0 <= j < k < |s|
      ensures cmp(s[j], s[k]) <= 0
    {
      assert NodeLeq(cmp, l.pool, l.chains[0][j + 1], l.chains[0][k + 1]);
    }
  }

  ghost predicate Member<Key>(cmp: Comparator<Key>, s: seq<Key>, key: Key) {
    exists j :: 0 <= j < |s| && cmp(key, s[j]) == 0
  }

  /** The comparison that Contains makes with the node it found decides membership. */
  lemma FoundIsMember<Id, Key(!new)>(cmp: Comparator<Key>, l: List<Id, Key>, key: Key)
    requires Inv(cmp, l)
    ensures |l.chains[0]| > 0
    ensures var f := FirstAtLeast(cmp, l.pool, l.chains[0], key);
            (f.To? && f.node in l.pool.keys && cmp(key, l.pool.keys[f.node]) == 0)
            <==> Member(cmp, Contents(cmp, l), key)
  {
    var c, s := l.chains[0], Contents(cmp, l);
    InvKeyed(cmp, l, 0);
    RankSplits(cmp, l.pool, c, key);
    var r := Rank(cmp, l.pool, c, key);
    if r + 1 < |c| && cmp(key, l.pool.keys[c[r + 1]]) == 0 {
      assert cmp(key, s[r]) == 0;
    }
    if Member(cmp, s, key) {
      var j :| 0 <= j < |s| && cmp(key, s[j]) == 0;
      assert s[j] == l.pool.keys[c[j + 1]];
      assert !NodeLess(cmp, l.pool, c[j + 1], key);
      assert r <= j;
      if r < j {
        assert NodeLeq(cmp, l.pool, c[r + 1], c[j + 1]);
        assert !NodeLess(cmp, l.pool, c[r + 1], key);
        Squeeze(cmp, key, l.pool.keys[c[r + 1]], s[j]);
      }
    }
  }

  /** The node found for `key` is below `k` exactly when some key of the list lies from `key` up to `k`. */
  lemma TargetBelow<Id, Key(!new)>(cmp: Comparator<Key>, l: List<Id, Key>, key: Key, k: Key)
    requires Inv(cmp, l)
    ensures |l.chains[0]| > 0
    ensures LinkLess(cmp, l.pool, FirstAtLeast(cmp, l.pool, l.chains[0], key), k) <==> SomeBetween(cmp, Contents(cmp, l), key, k)
  {
    var c, s := l.chains[0], Contents(cmp, l);
    InvKeyed(cmp, l, 0);
    RankSplits(cmp, l.pool, c, key);
    var r := Rank(cmp, l.pool, c, key);
    if r + 1 < |c| && NodeLess(cmp, l.pool, c[r + 1], k) {
      assert !NodeLess(cmp, l.pool, c[r + 1], key);
      assert Between(cmp, key, s[r], k);
    }
    if SomeBetween(cmp, s, key, k) {
      var j :| 0 <= j < |s| && Between(cmp, key, s[j], k);
      assert !NodeLess(cmp, l.pool, c[j + 1], key);
      assert r <= j;
      if r < j {
        assert NodeLeq(cmp, l.pool, c[r + 1], c[j + 1]);
        LeqLess(cmp, l.pool.keys[c[r + 1]], s[j], k);
      }
    }
  }

  lemma Squeeze<Key(!new)>(cmp: Comparator<Key>, a: Key, b: Key, c: Key)
    requires TotalPreorder(cmp)
    requires !Less(cmp, b, a) && cmp(b, c) <= 0 && cmp(a, c) == 0
    ensures cmp(a, b) == 0
  {
    assert Compared(b, c, a) && Compared(a, b, c);
  }

  // ---- the stores of an insertion -------------------------------------------------

  ghost function AddNode<Id, Key>(l: List<Id, Key>, y: Id, key: Key, height: nat): List<Id, Key> {
    l.(pool := l.pool.Add(y, key, height), linked := l.linked[y := 0])
  }

  lemma AddNodeInv<Id, Key(!new)>(cmp: Comparator<Key>, l: List<Id, Key>, y: Id, key: Key, height: nat)
    requires Inv(cmp, l) && y !in l.linked
    ensures Inv(cmp, AddNode(l, y, key, height))
    ensures Contents(cmp, AddNode(l, y, key, height)) == Contents(cmp, l)
  {
    var m := AddNode(l, y, key, height);
    AddAll(l.pool, y, key, height, l.chains);
    InvKeyed(cmp, l, 0);
    forall j, k | 1 <= j < k < |l.chains[0]|
      ensures NodeLeq(cmp, m.pool, m.chains[0][j], m.chains[0][k])
    {
      assert NodeLeq(cmp, l.pool, l.chains[0][j], l.chains[0][k]);
    }
    assert Membership(m);
  }

  /** `x->next[level] = prev[level]->next[level]`, before `x` is on that level. */
  ghost function Fill<Id, Key>(l: List<Id, Key>, y: Id, level: nat): List<Id, Key>
    requires level < |l.prev|
  {
    l.(pool := l.pool.Store(y, level, l.pool.Slot(l.prev[level], level)))
  }

  lemma FillInv<Id, Key(!new)>(cmp: Comparator<Key>, l: List<Id, Key>, y: Id, level: nat)
    requires Inv(cmp, l) && y in l.linked
    requires l.linked[y] == level < l.pool.Height(y) && level < MAX_HEIGHT
    ensures Inv(cmp, Fill(l, y, level))
    ensures Contents(cmp, Fill(l, y, level)) == Contents(cmp, l)
    ensures Fill(l, y, level).pool.Slot(y, level) == Fill(l, y, level).pool.Slot(l.prev[level], level)
  {
    var m := Fill(l, y, level);
    StoreElsewhereAll(l.pool, y, level, l.pool.Slot(l.prev[level], level), l.chains);
    assert m.pool.links.Keys == l.pool.links.Keys;
    assert Membership(m);
    assert forall x, z :: NodeLeq(cmp, m.pool, x, z) == NodeLeq(cmp, l.pool, x, z);
  }

  /** `prev[level]->next[level] = x`: from here on `x` is reachable on that level. */
  ghost function Attach<Id, Key>(l: List<Id, Key>, y: Id, level: nat): List<Id, Key>
    requires level < |l.prev| && level < |l.chains| && l.prev[level] in l.chains[level]
  {
    l.(pool := l.pool.Store(l.prev[level], level, To(y)),
       chains := l.chains[level := InsertAfter(l.chains[level], l.prev[level], y)],
       linked := l.linked[y := level + 1])
  }

  /** The next level of `y` is filled and may be published. */
  ghost predicate Publishable<Id, Key(!new)>(cmp: Comparator<Key>, l: List<Id, Key>, y: Id, level: nat) {
    && Inv(cmp, l)
    && y in l.linked && y != l.pool.head
    && l.linked[y] == level < l.maxHeight
    && l.pool.Slot(y, level) == l.pool.Slot(l.prev[level], level)
    && (level == 0 ==> Splits(cmp, l.pool, l.chains[0], l.pool.keys[y], IndexOf(l.chains[0], l.prev[0])))
  }

  lemma NotYetLinked<Id, Key(!new)>(cmp: Comparator<Key>, l: List<Id, Key>, y: Id, level: nat)
    requires Inv(cmp, l) && y in l.linked && l.linked[y] == level < MAX_HEIGHT
    ensures y !in l.chains[level]
  {
  }

  lemma LinkInv<Id, Key(!new)>(cmp: Comparator<Key>, l: List<Id, Key>, y: Id, level: nat)
    requires Publishable(cmp, l, y, level)
    ensures Inv(cmp, Attach(l, y, level))
    ensures multiset(Contents(cmp, Attach(l, y, level))) ==
            multiset(Contents(cmp, l)) + if level == 0 then multiset{l.pool.keys[y]} else multiset{}
  {
    hide Membership, TotalPreorder, IsChain;
    var x := l.prev[level];
    SlotReady(cmp, l, level, x);
    NotYetLinked(cmp, l, y, level);
    var m := Attach(l, y, level);
    PublishAll(l.pool, level, l.chains, x, y);
    assert m.pool.links.Keys == l.pool.links.Keys;
    assert m.linked.Keys == l.linked.Keys;
    assert Structure(m);
    LinkMembership(cmp, l, y, level);
    forall i | 0 <= i < MAX_HEIGHT
      ensures m.prev[i] in m.chains[i]
    {
      InsertMember(l.chains[level], x, y, l.prev[i]);
    }
    if level == 0 {
      LinkSorted(cmp, l, y);
    } else {
      assert forall u, v :: NodeLeq(cmp, m.pool, u, v) == NodeLeq(cmp, l.pool, u, v);
    }
    InvKeyed(cmp, m, 0);
    if level != 0 {
      assert Contents(cmp, m) == Contents(cmp, l);
    }
  }

  lemma LinkMembership<Id, Key(!new)>(cmp: Comparator<Key>, l: List<Id, Key>, y: Id, level: nat)
    requires Publishable(cmp, l, y, level)
    requires Structure(Attach(l, y, level))
    ensures Membership(Attach(l, y, level))
  {
    var m := Attach(l, y, level);
    forall i, x | 0 <= i < MAX_HEIGHT && x in m.linked
      ensures x in m.chains[i] <==> i < m.linked[x]
    {
      InsertMember(l.chains[level], l.prev[level], y, x);
      assert x in l.chains[i] <==> i < l.linked[x];
    }
    forall i, j | 0 <= i < MAX_HEIGHT && 0 <= j < |m.chains[i]|
      ensures m.chains[i][j] in m.linked
    {
      var z := m.chains[i][j];
      assert z in m.chains[i];
      if i == level {
        InsertMember(l.chains[level], l.prev[level], y, z);
        if z != y {
          assert l.chains[i][IndexOf(l.chains[i], z)] in l.linked;
        }
      } else {
        assert l.chains[i][j] in l.linked;
      }
    }
  }

  lemma LinkSorted<Id, Key(!new)>(cmp: Comparator<Key>, l: List<Id, Key>, y: Id)
    requires Publishable(cmp, l, y, 0)
    ensures Sorted(cmp, Attach(l, y, 0).pool, Attach(l, y, 0).chains[0])
    ensures Keyed(l.pool, InsertAfter(l.chains[0], l.prev[0], y)) && Keyed(l.pool, l.chains[0])
    ensures multiset(KeysAlong(l.pool, InsertAfter(l.chains[0], l.prev[0], y)))
         == multiset(KeysAlong(l.pool, l.chains[0])) + multiset{l.pool.keys[y]}
  {
    var p := Without(l.pool, y);
    var key := l.pool.keys[y];
    var c := l.chains[0];
    InvKeyed(cmp, l, 0);
    forall j | 0 <= j < |c|
      ensures c[j] in p.keys
    {
      assert c[j] in c && c[j] in l.linked;
    }
    assert Splits(cmp, p, c, key, IndexOf(c, l.prev[0])) by {
      assert forall z :: z in p.keys ==> NodeLess(cmp, p, z, key) == NodeLess(cmp, l.pool, z, key);
    }
    SplitFits(cmp, p, c, l.prev[0], key);
    forall j, k | 1 <= j < k < |c|
      ensures NodeLeq(cmp, p, c[j], c[k])
    {
      assert NodeLeq(cmp, l.pool, c[j], c[k]);
    }
    SortedInsert(cmp, p, c, l.prev[0], y, key, 0);
    KeysAfterInsert(p, c, l.prev[0], y, key, 0);
    var d := InsertAfter(c, l.prev[0], y);
    assert p.Add(y, key, 0).keys == l.pool.keys;
    assert KeysAlong(p, c) == KeysAlong(l.pool, c);
    assert KeysAlong(p.Add(y, key, 0), d) == KeysAlong(l.pool, d);
    var q := Attach(l, y, 0).pool;
    forall j, k | 1 <= j < k < |d|
      ensures NodeLeq(cmp, q, d[j], d[k])
    {
      assert NodeLeq(cmp, p.Add(y, key, 0), d[j], d[k]);
    }
  }

  ghost function Without<Id, Key>(p: Pool<Id, Key>, y: Id): Pool<Id, Key> {
    p.(keys := p.keys - {y}, links := p.links - {y})
  }

  /** `x` is where the search for `key` left `level`. */
  ghost predicate Bracketed<Id, Key>(cmp: Comparator<Key>, l: List<Id, Key>, level: nat, x: Id, key: Key)
    requires Structure(l)
  {
    Standing(cmp, l, level, x, key) && !LinkLess(cmp, l.pool, l.pool.Slot(x, level), key)
  }

  /** The levels from `level` up to the current height were searched; the others are untouched. */
  ghost predicate Recorded<Id, Key>(cmp: Comparator<Key>, l: List<Id, Key>, level: nat, before: seq<Id>, p: seq<Id>, key: Key)
    requires Structure(l)
  {
    && |before| == |p| == MAX_HEIGHT
    && (forall i :: level <= i < l.maxHeight ==> Bracketed(cmp, l, i, p[i], key))
    && (forall i :: l.maxHeight <= i < MAX_HEIGHT ==> p[i] == before[i])
  }

  lemma RecordLevel<Id, Key>(cmp: Comparator<Key>, l: List<Id, Key>, level: nat, before: seq<Id>, p: seq<Id>, x: Id, key: Key)
    requires Structure(l) && level < l.maxHeight
    requires Recorded(cmp, l, level + 1, before, p, key) && Bracketed(cmp, l, level, x, key)
    ensures Recorded(cmp, l, level, before, p[level := x], key)
  {
  }

  /** Above the current height only the head is linked. */
  lemma TopLevel<Id, Key(!new)>(cmp: Comparator<Key>, l: List<Id, Key>, i: nat)
    requires Inv(cmp, l) && l.maxHeight <= i < MAX_HEIGHT
    ensures l.chains[i] == [l.pool.head] && l.prev[i] == l.pool.head
  {
    InvKeyed(cmp, l, i);
    var c := l.chains[i];
    assert c[|c| - 1] in c && c[|c| - 1] in l.linked;
    assert |c| == 1;
    assert l.prev[i] in c;
  }

  lemma Shape<Id, Key(!new)>(cmp: Comparator<Key>, l: List<Id, Key>)
    requires Inv(cmp, l)
    ensures Structure(l) && |l.chains| == |l.prev| == MAX_HEIGHT && 1 <= l.maxHeight <= MAX_HEIGHT
    ensures forall i :: 0 <= i < MAX_HEIGHT ==> l.prev[i] in l.chains[i]
  {
  }

  lemma SameContents<Id, Key(!new)>(cmp: Comparator<Key>, l: List<Id, Key>, m: List<Id, Key>)
    requires Inv(cmp, l) && Inv(cmp, m) && l.pool == m.pool && l.chains == m.chains
    ensures Contents(cmp, l) == Contents(cmp, m)
  {
  }

  lemma Raise<Id, Key(!new)>(cmp: Comparator<Key>, l: List<Id, Key>, height: nat)
    requires Inv(cmp, l) && l.maxHeight <= height <= MAX_HEIGHT
    ensures Inv(cmp, l.(maxHeight := height))
    ensures forall key :: Gap(cmp, l, key) ==> Gap(cmp, l.(maxHeight := height), key)
  {
    assert Membership(l.(maxHeight := height));
  }

  // ---- the loop of an insertion -----------------------------------------------------

  /** `m` is `l` with the new node `y` linked on the levels below i. */
  ghost predicate Linking<Id, Key>(l: List<Id, Key>, m: List<Id, Key>, y: Id, key: Key, height: nat, i: nat)
    requires Structure(l) && forall j :: 0 <= j < MAX_HEIGHT ==> l.prev[j] in l.chains[j]
  {
    && y !in l.linked
    && m.pool.head == l.pool.head && m.maxHeight == l.maxHeight && m.prev == l.prev
    && m.pool.keys == l.pool.keys[y := key]
    && m.pool.Height(y) == height
    && (forall z :: z in l.linked ==> m.pool.Height(z) == l.pool.Height(z))
    && m.linked == l.linked[y := i]
    && |m.chains| == MAX_HEIGHT
    && (forall j :: 0 <= j < MAX_HEIGHT ==>
          m.chains[j] == if j < i then InsertAfter(l.chains[j], l.prev[j], y) else l.chains[j])
  }

  /** `m` is `l` with `y` linked behind `prev[i]` on every level below its height. */
  ghost predicate Inserted<Id, Key>(l: List<Id, Key>, m: List<Id, Key>, y: Id, key: Key, height: nat)
    requires Structure(l) && forall i :: 0 <= i < MAX_HEIGHT ==> l.prev[i] in l.chains[i]
  {
    && y !in l.pool.keys
    && 1 <= height <= MAX_HEIGHT
    && m.pool.head == l.pool.head
    && m.pool.keys == l.pool.keys[y := key]
    && m.prev == l.prev[0 := y]
    && |m.chains| == MAX_HEIGHT
    && (forall i :: 0 <= i < MAX_HEIGHT ==>
          m.chains[i] == if i < height then InsertAfter(l.chains[i], l.prev[i], y) else l.chains[i])
  }

  lemma StartLinking<Id, Key(!new)>(cmp: Comparator<Key>, l: List<Id, Key>, y: Id, key: Key, height: nat)
    requires Inv(cmp, l) && y !in l.linked
    requires Gap(cmp, l, key)
    ensures var m := AddNode(l, y, key, height);
            && Inv(cmp, m) && Contents(cmp, m) == Contents(cmp, l)
            && Linking(l, m, y, key, height, 0)
            && Gap(cmp, m, key)
  {
    AddNodeInv(cmp, l, y, key, height);
    AddedSplits(cmp, l, y, key, height);
  }

  lemma DuringLinking<Id, Key(!new)>(cmp: Comparator<Key>, l: List<Id, Key>, m: List<Id, Key>, y: Id, key: Key, height: nat, i: nat)
    requires Inv(cmp, l) && Inv(cmp, m) && Linking(l, m, y, key, height, i)
    ensures Structure(l) && Structure(m) && m.prev == l.prev && y in m.linked && m.pool.Height(y) == height
    ensures forall j :: 0 <= j < MAX_HEIGHT ==> m.prev[j] in m.chains[j]
  {
  }

  lemma EndLinking<Id, Key(!new)>(cmp: Comparator<Key>, l: List<Id, Key>, m: List<Id, Key>, y: Id, key: Key, height: nat)
    requires Inv(cmp, l) && Inv(cmp, m) && Linking(l, m, y, key, height, height) && 1 <= height <= MAX_HEIGHT
    ensures m.maxHeight == l.maxHeight && m.prev == l.prev
    ensures Settled(l) ==> Settled(m)
    ensures Inserted(l, m.(prev := l.prev[0 := y]), y, key, height)
  {
  }

  lemma AddedSplits<Id, Key(!new)>(cmp: Comparator<Key>, l: List<Id, Key>, y: Id, key: Key, height: nat)
    requires Inv(cmp, l) && y !in l.linked
    requires Gap(cmp, l, key)
    ensures Gap(cmp, AddNode(l, y, key, height), key)
  {
    var q := AddNode(l, y, key, height).pool;
    InvKeyed(cmp, l, 0);
    forall j | 0 <= j < |l.chains[0]|
      ensures NodeLess(cmp, q, l.chains[0][j], key) == NodeLess(cmp, l.pool, l.chains[0][j], key)
    {
      assert l.chains[0][j] in l.pool.keys;
    }
  }

  lemma LinkingStep<Id, Key>(l: List<Id, Key>, m: List<Id, Key>, y: Id, key: Key, height: nat, i: nat)
    requires Structure(l) && forall j :: 0 <= j < MAX_HEIGHT ==> l.prev[j] in l.chains[j]
    requires Linking(l, m, y, key, height, i) && i < height && i < MAX_HEIGHT
    ensures m.prev[i] in m.chains[i] && Linking(l, Attach(Fill(m, y, i), y, i), y, key, height, i + 1)
  {
    hide AllChains;
    var f := Fill(m, y, i);
    var n := Attach(f, y, i);
    forall z
      ensures n.pool.Height(z) == m.pool.Height(z)
    {
      StoreHeight(m.pool, y, i, m.pool.Slot(m.prev[i], i), z);
      StoreHeight(f.pool, f.prev[i], i, To(y), z);
    }
  }

  lemma LinkStep<Id, Key(!new)>(cmp: Comparator<Key>, l: List<Id, Key>, m: List<Id, Key>, y: Id, key: Key, height: nat, i: nat)
    requires Inv(cmp, l) && Inv(cmp, m) && Linking(l, m, y, key, height, i)
    requires i < height <= l.maxHeight
    requires i == 0 ==> Gap(cmp, m, key)
    ensures var n := Attach(Fill(m, y, i), y, i);
            && Inv(cmp, n) && Linking(l, n, y, key, height, i + 1)
            && multiset(Contents(cmp, n)) == multiset(Contents(cmp, m)) + if i == 0 then multiset{key} else multiset{}
  {
    hide TotalPreorder, Sorted, IsChain, Contents;
    FillInv(cmp, m, y, i);
    var f := Fill(m, y, i);
    if i == 0 {
      assert forall z :: NodeLess(cmp, f.pool, z, key) == NodeLess(cmp, m.pool, z, key);
    }
    LinkInv(cmp, f, y, i);
    LinkingStep(l, m, y, key, height, i);
  }

  /** The new node points at what the search found. */
  lemma InsertedSlot<Id, Key(!new)>(cmp: Comparator<Key>, l: List<Id, Key>, m: List<Id, Key>, y: Id, key: Key, height: nat)
    requires Inv(cmp, l) && Gap(cmp, l, key) && Inv(cmp, m) && Inserted(l, m, y, key, height)
    ensures y in m.pool.keys && m.pool.keys[y] == key
    ensures m.pool.Slot(y, 0) != Unset && m.pool.Slot(y, 0) == FirstAtLeast(cmp, l.pool, l.chains[0], key)
  {
    var c, d := l.chains[0], m.chains[0];
    var r := IndexOf(c, l.prev[0]);
    SplitIsRank(cmp, l.pool, c, key, r);
    assert IsChain(m.pool, 0, d);
    assert d[r + 1] == y;
    assert m.pool.Slot(d[r + 1], 0) == LinkAfter(d, r + 1);
  }
}
