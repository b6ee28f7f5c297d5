/**
 Exactly when the levels above level 0 stay in key order.

 A full search leaves every `prev[i]` just before the insertion point of the key it
 looked for.  The insertion that follows may link a node behind `prev[i]`; from then
 on the successor of `prev[i]` lies at or before `prev[0]` in the list, the level is
 `dirty`, and the next insertion that reuses `prev` and links at level i puts a larger
 key in front of a smaller one.  Such a level never recovers.
 */
module LevelOrder {
  import opened Ordering
  import opened Chains
  import opened Lists

  ghost function Successor<Id>(c: seq<Id>, x: Id): Link<Id>
    requires x in c
  {
    LinkAfter(c, IndexOf(c, x))
  }

  /** The position of a node in the whole list. */
  ghost function Pos<Id, Key>(l: List<Id, Key>, x: Id): nat
    requires |l.chains| > 0 && x in l.chains[0]
  {
    IndexOf(l.chains[0], x)
  }

  /** `prev[i]` and its successor on level i lie on both sides of the gap behind `prev[0]`. */
  ghost predicate Straddles<Id, Key>(l: List<Id, Key>, i: nat)
    requires |l.prev| == |l.chains| == MAX_HEIGHT && i < MAX_HEIGHT
    requires l.prev[i] in l.chains[i] && l.prev[0] in l.chains[0]
  {
    var s := Successor(l.chains[i], l.prev[i]);
    && l.prev[i] in l.chains[0] && Pos(l, l.prev[i]) <= Pos(l, l.prev[0])
    && (s.To? ==> s.node in l.chains[0] && Pos(l, l.prev[0]) < Pos(l, s.node))
  }

  /** The successor of `prev[i]` on level i is not behind `prev[0]`. */
  ghost predicate Overtaken<Id, Key>(l: List<Id, Key>, i: nat)
    requires |l.prev| == |l.chains| == MAX_HEIGHT && i < MAX_HEIGHT
    requires l.prev[i] in l.chains[i] && l.prev[0] in l.chains[0]
  {
    var s := Successor(l.chains[i], l.prev[i]);
    s.To? && s.node in l.chains[0] && 0 < Pos(l, s.node) <= Pos(l, l.prev[0])
  }

  /**
   `dirty` are the levels linked since the last full search; `broken` those on which a
   later insertion linked while they were dirty.
   */
  ghost predicate OrderInv<Id, Key(!new)>(cmp: Comparator<Key>, l: List<Id, Key>, dirty: set<nat>, broken: set<nat>)
    requires Inv(cmp, l)
  {
    forall i :: 1 <= i < MAX_HEIGHT ==>
      && (if i in dirty then Overtaken(l, i) else Straddles(l, i))
      && (Sorted(cmp, l.pool, l.chains[i]) <==> i !in broken)
  }

  lemma EmptyOrder<Id, Key(!new)>(cmp: Comparator<Key>, l: List<Id, Key>)
    requires Inv(cmp, l) && Empty(l)
    ensures OrderInv(cmp, l, {}, {})
  {
    forall i | 0 <= i < MAX_HEIGHT
      ensures Straddles(l, i) && Sorted(cmp, l.pool, l.chains[i])
    {
      assert l.chains[i] == [l.pool.head] == l.chains[0];
    }
  }

  lemma PosUnique<Id>(c: seq<Id>, x: Id, j: nat)
    requires Distinct(c) && j < |c| && c[j] == x
    ensures x in c && IndexOf(c, x) == j
  {
  }

  /** Below the gap means below the key, behind it means not below the key. */
  lemma GapDecides<Id, Key(!new)>(cmp: Comparator<Key>, l: List<Id, Key>, key: Key, x: Id)
    requires Inv(cmp, l) && x in l.chains[0]
    requires Gap(cmp, l, key)
    ensures x in l.pool.keys
    ensures Pos(l, x) <= Pos(l, l.prev[0]) <==> x == l.pool.head || NodeLess(cmp, l.pool, x, key)
  {
    InvKeyed(cmp, l, 0);
    var r := Pos(l, x);
    assert l.chains[0][r] == x;
  }

  /** A full search for `key` makes every level straddle the gap before `key`. */
  lemma SearchStraddles<Id, Key(!new)>(cmp: Comparator<Key>, l: List<Id, Key>, key: Key, i: nat)
    requires Inv(cmp, l) && i < MAX_HEIGHT
    requires Gap(cmp, l, key)
    requires Standing(cmp, l, i, l.prev[i], key)
    requires !LinkLess(cmp, l.pool, l.pool.Slot(l.prev[i], i), key)
    ensures Straddles(l, i)
  {
    Descend(cmp, l, i, 0, l.prev[i]);
    GapDecides(cmp, l, key, l.prev[i]);
    SlotReady(cmp, l, i, l.prev[i]);
    Advance(cmp, l, i, l.prev[i], key);
    var s := Successor(l.chains[i], l.prev[i]);
    if s.To? {
      Descend(cmp, l, i, 0, s.node);
      GapDecides(cmp, l, key, s.node);
    }
  }

  // ---- one insertion ---------------------------------------------------------------

  lemma PosAfter<Id, Key(!new)>(cmp: Comparator<Key>, l: List<Id, Key>, m: List<Id, Key>, y: Id, key: Key, height: nat, x: Id)
    requires Inv(cmp, l) && Inserted(l, m, y, key, height) && Distinct(m.chains[0])
    requires x in l.chains[0]
    ensures x in m.chains[0] && y in m.chains[0]
    ensures Pos(m, y) == Pos(l, l.prev[0]) + 1
    ensures Pos(m, x) == if Pos(l, x) <= Pos(l, l.prev[0]) then Pos(l, x) else Pos(l, x) + 1
  {
    var r, j := Pos(l, l.prev[0]), Pos(l, x);
    var d := m.chains[0];
    assert d[r + 1] == y;
    PosUnique(d, y, r + 1);
    if j <= r {
      assert d[j] == l.chains[0][j];
      PosUnique(d, x, j);
    } else {
      assert d[j + 1] == l.chains[0][j];
      PosUnique(d, x, j + 1);
    }
  }

  lemma ClosestFits<Id, Key(!new)>(cmp: Comparator<Key>, l: List<Id, Key>, key: Key, i: nat)
    requires Inv(cmp, l) && 1 <= i < MAX_HEIGHT
    requires Gap(cmp, l, key)
    ensures Straddles(l, i) ==> Fits(cmp, l.pool, l.chains[i], l.prev[i], key)
    ensures Overtaken(l, i) ==> !Fits(cmp, l.pool, l.chains[i], l.prev[i], key)
  {
    var c := l.chains[i];
    InvKeyed(cmp, l, i);
    InvKeyed(cmp, l, 0);
    var j := IndexOf(c, l.prev[i]);
    if Straddles(l, i) {
      GapDecides(cmp, l, key, l.prev[i]);
      assert j > 0 ==> c[j] != c[0];
      if j + 1 < |c| {
        GapDecides(cmp, l, key, c[j + 1]);
      }
    }
    if Overtaken(l, i) {
      GapDecides(cmp, l, key, c[j + 1]);
      assert NodeLess(cmp, l.pool, c[j + 1], key);
    }
  }

  /** Sortedness only looks at the keys. */
  lemma SortedSameKeys<Id, Key(!new)>(cmp: Comparator<Key>, p: Pool<Id, Key>, q: Pool<Id, Key>, c: seq<Id>)
    requires p.keys == q.keys
    ensures Sorted(cmp, p, c) <==> Sorted(cmp, q, c)
  {
    assert forall x, y :: NodeLeq(cmp, p, x, y) == NodeLeq(cmp, q, x, y);
  }

  lemma SortedMoreKeys<Id, Key(!new)>(cmp: Comparator<Key>, p: Pool<Id, Key>, q: Pool<Id, Key>, c: seq<Id>, y: Id, key: Key)
    requires Keyed(p, c) && y !in p.keys && q.keys == p.keys[y := key]
    ensures Sorted(cmp, p, c) <==> Sorted(cmp, q, c)
  {
    assert forall j, k :: 0 <= j < |c| && 0 <= k < |c| ==> NodeLeq(cmp, p, c[j], c[k]) == NodeLeq(cmp, q, c[j], c[k]);
  }

  /** A level stays in order unless the insertion links there while the level is dirty. */
  lemma LevelSorted<Id, Key(!new)>(cmp: Comparator<Key>, l: List<Id, Key>, m: List<Id, Key>, y: Id, key: Key, height: nat, i: nat)
    requires Inv(cmp, l) && Inserted(l, m, y, key, height)
    requires Gap(cmp, l, key)
    requires 1 <= i < MAX_HEIGHT && (Straddles(l, i) || Overtaken(l, i))
    ensures Sorted(cmp, m.pool, m.chains[i]) <==>
            Sorted(cmp, l.pool, l.chains[i]) && !(i < height && Overtaken(l, i))
  {
    InvKeyed(cmp, l, i);
    if i < height {
      ClosestFits(cmp, l, key, i);
      SortedInsert(cmp, l.pool, l.chains[i], l.prev[i], y, key, height);
      SortedSameKeys(cmp, m.pool, l.pool.Add(y, key, height), m.chains[i]);
    } else {
      SortedMoreKeys(cmp, l.pool, m.pool, l.chains[i], y, key);
    }
  }

  /** A level on which the node was linked is overtaken. */
  lemma LinkedOvertakes<Id, Key(!new)>(cmp: Comparator<Key>, l: List<Id, Key>, m: List<Id, Key>, y: Id, key: Key, height: nat, i: nat)
    requires Inv(cmp, l) && Inv(cmp, m) && Inserted(l, m, y, key, height)
    requires 1 <= i < height && i < MAX_HEIGHT
    ensures Overtaken(m, i)
  {
    hide TotalPreorder, Sorted, AllChains, Membership;
    InvKeyed(cmp, m, 0);
    InvKeyed(cmp, m, i);
    PosAfter(cmp, l, m, y, key, height, l.prev[0]);
    var j := IndexOf(l.chains[i], l.prev[i]);
    assert m.chains[i][j] == l.prev[i] && m.chains[i][j + 1] == y;
    PosUnique(m.chains[i], l.prev[i], j);
  }

  lemma LevelPlaced<Id, Key(!new)>(cmp: Comparator<Key>, l: List<Id, Key>, m: List<Id, Key>, y: Id, key: Key, height: nat, i: nat)
    requires Inv(cmp, l) && Inv(cmp, m) && Inserted(l, m, y, key, height)
    requires 1 <= i < MAX_HEIGHT
    ensures i < height ==> Overtaken(m, i)
    ensures i >= height && Overtaken(l, i) ==> Overtaken(m, i)
    ensures i >= height && Straddles(l, i) ==> Straddles(m, i)
  {
    hide TotalPreorder, Sorted, AllChains, Membership;
    if i < height {
      LinkedOvertakes(cmp, l, m, y, key, height, i);
    } else {
      InvKeyed(cmp, m, 0);
      PosAfter(cmp, l, m, y, key, height, l.prev[0]);
      var s := Successor(l.chains[i], l.prev[i]);
      Descend(cmp, l, i, 0, l.prev[i]);
      PosAfter(cmp, l, m, y, key, height, l.prev[i]);
      if s.To? && s.node in l.chains[0] {
        PosAfter(cmp, l, m, y, key, height, s.node);
      }
    }
  }

  ghost predicate Level(i: nat) {
    i < MAX_HEIGHT
  }

  /** The levels above 0 on which a node of this height is linked. */
  ghost function Below(height: nat): set<nat> {
    set i: nat | 1 <= i < height && Level(i)
  }

  /** What one insertion does to the order of the upper levels, whatever search preceded it. */
  lemma InsertOrder<Id, Key(!new)>(cmp: Comparator<Key>, l: List<Id, Key>, m: List<Id, Key>, y: Id, key: Key, height: nat,
                                  dirty: set<nat>, broken: set<nat>)
    requires Inv(cmp, l) && Inv(cmp, m) && Inserted(l, m, y, key, height)
    requires Gap(cmp, l, key)
    requires OrderInv(cmp, l, dirty, broken)
    ensures OrderInv(cmp, m, dirty + Below(height), broken + dirty * Below(height))
  {
    forall i | 1 <= i < MAX_HEIGHT
      ensures if i in dirty + Below(height) then Overtaken(m, i) else Straddles(m, i)
      ensures Sorted(cmp, m.pool, m.chains[i]) <==> i !in broken + dirty * Below(height)
    {
      assert Level(i);
      LevelSorted(cmp, l, m, y, key, height, i);
      LevelPlaced(cmp, l, m, y, key, height, i);
      Exclusive(l, i);
    }
  }

  lemma Exclusive<Id, Key>(l: List<Id, Key>, i: nat)
    requires |l.prev| == |l.chains| == MAX_HEIGHT && i < MAX_HEIGHT
    requires l.prev[i] in l.chains[i] && l.prev[0] in l.chains[0]
    ensures !(Straddles(l, i) && Overtaken(l, i))
  {
  }

  /** After a full search the remembered predecessors straddle the gap on every level. */
  lemma Searched<Id, Key(!new)>(cmp: Comparator<Key>, l: List<Id, Key>, prev': seq<Id>, key: Key,
                               dirty: set<nat>, broken: set<nat>)
    requires Inv(cmp, l) && OrderInv(cmp, l, dirty, broken)
    requires Recorded(cmp, l, 0, l.prev, prev', key)
    ensures Inv(cmp, l.(prev := prev'))
    ensures OrderInv(cmp, l.(prev := prev'), {}, broken)
  {
    var m := l.(prev := prev');
    assert Membership(m);
    StopSplits(cmp, l, prev'[0], key);
    forall i | 1 <= i < MAX_HEIGHT
      ensures Straddles(m, i)
    {
      if i >= l.maxHeight {
        TopLevel(cmp, l, i);
        InvKeyed(cmp, l, 0);
        SlotReady(cmp, l, i, l.pool.head);
      }
      SearchStraddles(cmp, m, key, i);
    }
  }

  /** Remembering the new node as the next hint. */
  lemma NewHint<Id, Key(!new)>(cmp: Comparator<Key>, l: List<Id, Key>, m: List<Id, Key>, y: Id, key: Key, height: nat)
    requires Inv(cmp, l) && Inv(cmp, m) && m.prev == l.prev
    requires Inserted(l, m.(prev := l.prev[0 := y]), y, key, height)
    ensures Inv(cmp, m.(prev := l.prev[0 := y]))
    ensures Contents(cmp, m.(prev := l.prev[0 := y])) == Contents(cmp, m)
  {
    var n := m.(prev := l.prev[0 := y]);
    assert Membership(n);
    InsertMember(l.chains[0], l.prev[0], y, y);
  }

  lemma RaiseOrder<Id, Key(!new)>(cmp: Comparator<Key>, l: List<Id, Key>, height: nat, dirty: set<nat>, broken: set<nat>)
    requires Inv(cmp, l) && Inv(cmp, l.(maxHeight := height))
    requires OrderInv(cmp, l, dirty, broken)
    ensures OrderInv(cmp, l.(maxHeight := height), dirty, broken)
  {
  }
}
