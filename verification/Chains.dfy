/**
 The linked structure behind the skip list: a pool of nodes, each holding one
 forward link for every level below its height.

 `Id` names a node: an object reference in the sequential model, a number in the
 interleaved one.  `links[x][level]` is the slot `next_[level]` of the node `x`;
 a slot that was never written is `Unset`.  Nodes are never deleted.
 */
module Chains {
  import opened Ordering

  datatype Link<+Id> = Unset | Null | To(node: Id)

  datatype Pool<Id, Key> = Pool(head: Id, keys: map<Id, Key>, links: map<Id, seq<Link<Id>>>)
  {
    /** The content of a slot; a slot beyond the node's height counts as unset. */
    ghost function Slot(x: Id, level: nat): Link<Id> {
      if x in links && level < |links[x]| then links[x][level] else Unset
    }

    ghost function Height(x: Id): nat {
      if x in links then |links[x]| else 0
    }

    ghost function Store(x: Id, level: nat, l: Link<Id>): Pool<Id, Key> {
      if x in links && level < |links[x]| then this.(links := links[x := links[x][level := l]]) else this
    }

    /** A new node enters the pool with all its slots unset. */
    ghost function Add(y: Id, key: Key, height: nat): Pool<Id, Key> {
      this.(keys := keys[y := key], links := links[y := seq(height, _ => Unset)])
    }
  }

  // ---- chains ------------------------------------------------------------

  /** The link that the j-th node of a chain must hold. */
  ghost function LinkAfter<Id>(c: seq<Id>, j: nat): Link<Id> {
    if j + 1 < |c| then To(c[j + 1]) else Null
  }

  ghost predicate Distinct<Id>(c: seq<Id>) {
    forall j, k :: 0 <= j < k < |c| ==> c[j] != c[k]
  }

  /** `c` is what a walk along `level` meets: head first, no repetition, null at the end. */
  ghost predicate IsChain<Id, Key>(p: Pool<Id, Key>, level: nat, c: seq<Id>) {
    && |c| > 0
    && c[0] == p.head
    && Distinct(c)
    && (forall j :: 0 <= j < |c| ==> p.Slot(c[j], level) != Unset)
    && (forall j {:trigger LinkAfter(c, j)} :: 0 <= j < |c| ==> p.Slot(c[j], level) == LinkAfter(c, j))
  }

  ghost predicate AllChains<Id, Key>(p: Pool<Id, Key>, chains: seq<seq<Id>>) {
    forall i :: 0 <= i < |chains| ==> IsChain(p, i, chains[i])
  }

  /** A level determines its chain: two null-terminated walks from the head are the same walk. */
  lemma {:induction false} ChainUnique<Id, Key>(p: Pool<Id, Key>, level: nat, c: seq<Id>, d: seq<Id>)
    requires IsChain(p, level, c) && IsChain(p, level, d)
    ensures c == d
  {
    var n := if |c| <= |d| then |c| else |d|;
    ChainAgree(p, level, c, d, n);
    assert LinkAfter(c, n - 1) == p.Slot(c[n - 1], level) == p.Slot(d[n - 1], level) == LinkAfter(d, n - 1) by {
      assert c[n - 1] == c[..n][n - 1] == d[..n][n - 1] == d[n - 1];
    }
    assert c == c[..n] && d == d[..n];
  }

  lemma {:induction false} ChainAgree<Id, Key>(p: Pool<Id, Key>, level: nat, c: seq<Id>, d: seq<Id>, n: nat)
    requires IsChain(p, level, c) && IsChain(p, level, d)
    requires n <= |c| && n <= |d|
    ensures c[..n] == d[..n]
  {
    if n > 1 {
      ChainAgree(p, level, c, d, n - 1);
      assert c[n - 2] == c[..n - 1][n - 2] == d[..n - 1][n - 2] == d[n - 2];
      assert LinkAfter(c, n - 2) == LinkAfter(d, n - 2);
      assert c[..n] == c[..n - 1] + [c[n - 1]];
      assert d[..n] == d[..n - 1] + [d[n - 1]];
    }
  }

  // ---- positions -----------------------------------------------------------

  ghost function IndexOf<Id>(c: seq<Id>, x: Id): (j: nat)
    requires x in c
    ensures j < |c| && c[j] == x
  {
    var j :| 0 <= j < |c| && c[j] == x;
    j
  }

  ghost function InsertAt<Id>(c: seq<Id>, j: nat, y: Id): (d: seq<Id>)
    requires j < |c|
    ensures |d| == |c| + 1
    ensures forall k :: 0 <= k <= j ==> d[k] == c[k]
    ensures d[j + 1] == y
    ensures forall k :: j + 1 < k < |d| ==> d[k] == c[k - 1]
  {
    c[..j + 1] + [y] + c[j + 1..]
  }

  /** The chain with `y` linked in directly behind `x`. */
  ghost function InsertAfter<Id>(c: seq<Id>, x: Id, y: Id): (d: seq<Id>)
    requires x in c
  {
    InsertAt(c, IndexOf(c, x), y)
  }

  lemma InsertMember<Id>(c: seq<Id>, x: Id, y: Id, z: Id)
    requires x in c
    ensures z in InsertAfter(c, x, y) <==> z in c || z == y
  {
    var j := IndexOf(c, x);
    assert c == c[..j + 1] + c[j + 1..];
  }

  // ---- link stores -----------------------------------------------------------

  lemma StoreSlots<Id, Key>(p: Pool<Id, Key>, x: Id, level: nat, l: Link<Id>, z: Id, i: nat)
    requires x in p.links && level < |p.links[x]|
    ensures p.Store(x, level, l).Slot(z, i) == if z == x && i == level then l else p.Slot(z, i)
  {
  }

  lemma StoreHeight<Id, Key>(p: Pool<Id, Key>, x: Id, level: nat, l: Link<Id>, z: Id)
    ensures p.Store(x, level, l).Height(z) == p.Height(z)
  {
  }

  /** A store to another level, or to a node that the chain does not visit, leaves the chain. */
  lemma StoreElsewhere<Id, Key>(p: Pool<Id, Key>, x: Id, level: nat, l: Link<Id>, i: nat, c: seq<Id>)
    requires x in p.links && level < |p.links[x]|
    requires IsChain(p, i, c)
    requires i != level || x !in c
    ensures IsChain(p.Store(x, level, l), i, c)
  {
    var q := p.Store(x, level, l);
    forall j | 0 <= j < |c|
      ensures q.Slot(c[j], i) == LinkAfter(c, j) && q.Slot(c[j], i) != Unset
    {
      StoreSlots(p, x, level, l, c[j], i);
    }
  }

  /** The publishing store: `y` already points where `x` points, then `x` is made to point at `y`. */
  lemma Publish<Id, Key>(p: Pool<Id, Key>, level: nat, c: seq<Id>, x: Id, y: Id)
    requires IsChain(p, level, c)
    requires x in c && y !in c
    requires p.Slot(y, level) == p.Slot(x, level)
    ensures IsChain(p.Store(x, level, To(y)), level, InsertAfter(c, x, y))
  {
    var k := IndexOf(c, x);
    var q := p.Store(x, level, To(y));
    var d := InsertAfter(c, x, y);
    forall i, j | 0 <= i < j < |d|
      ensures d[i] != d[j]
    {
      var i' := if i <= k then i else i - 1;
      var j' := if j <= k then j else j - 1;
      assert c[i'] in c && c[j'] in c;
    }
    forall j | 0 <= j < |d|
      ensures q.Slot(d[j], level) == LinkAfter(d, j)
    {
      StoreSlots(p, x, level, To(y), d[j], level);
      if j == k + 1 {
        assert p.Slot(y, level) == LinkAfter(c, k);
      } else if j != k {
        var j' := if j < k then j else j - 1;
        assert d[j] == c[j'] && c[j'] != c[k];
        assert q.Slot(c[j'], level) == LinkAfter(c, j');
      }
    }
    forall j | 0 <= j < |d|
      ensures q.Slot(d[j], level) != Unset
    {
      assert q.Slot(d[j], level) == LinkAfter(d, j);
    }
  }

  lemma StoreElsewhereAll<Id, Key>(p: Pool<Id, Key>, x: Id, level: nat, l: Link<Id>, chains: seq<seq<Id>>)
    requires x in p.links && level < |p.links[x]|
    requires AllChains(p, chains)
    requires level < |chains| ==> x !in chains[level]
    ensures AllChains(p.Store(x, level, l), chains)
  {
    forall i | 0 <= i < |chains|
      ensures IsChain(p.Store(x, level, l), i, chains[i])
    {
      StoreElsewhere(p, x, level, l, i, chains[i]);
    }
  }

  lemma PublishAll<Id, Key>(p: Pool<Id, Key>, level: nat, chains: seq<seq<Id>>, x: Id, y: Id)
    requires AllChains(p, chains)
    requires level < |chains| && x in chains[level] && y !in chains[level]
    requires p.Slot(y, level) == p.Slot(x, level)
    ensures p.Slot(x, level) != Unset
    ensures AllChains(p.Store(x, level, To(y)), chains[level := InsertAfter(chains[level], x, y)])
  {
    var chains' := chains[level := InsertAfter(chains[level], x, y)];
    assert p.Slot(chains[level][IndexOf(chains[level], x)], level) != Unset;
    forall i | 0 <= i < |chains|
      ensures IsChain(p.Store(x, level, To(y)), i, chains'[i])
    {
      if i == level {
        Publish(p, level, chains[level], x, y);
      } else {
        StoreElsewhere(p, x, level, To(y), i, chains[i]);
      }
    }
  }

  /** Adding a node to the pool links nothing. */
  lemma AddAll<Id, Key>(p: Pool<Id, Key>, y: Id, key: Key, height: nat, chains: seq<seq<Id>>)
    requires AllChains(p, chains)
    requires y !in p.links
    ensures AllChains(p.Add(y, key, height), chains)
  {
    var q := p.Add(y, key, height);
    forall i | 0 <= i < |chains|
      ensures IsChain(q, i, chains[i])
    {
      var c := chains[i];
      forall j | 0 <= j < |c|
        ensures q.Slot(c[j], i) == LinkAfter(c, j) && q.Slot(c[j], i) != Unset
      {
        assert p.Slot(c[j], i) != Unset;
      }
    }
  }

  // ---- order along a chain ------------------------------------------------

  /** The key of `x` is below `key`. */
  ghost predicate NodeLess<Id, Key>(cmp: Comparator<Key>, p: Pool<Id, Key>, x: Id, key: Key) {
    x in p.keys && Less(cmp, p.keys[x], key)
  }

  ghost predicate NodeLeq<Id, Key>(cmp: Comparator<Key>, p: Pool<Id, Key>, x: Id, y: Id) {
    x in p.keys && y in p.keys && cmp(p.keys[x], p.keys[y]) <= 0
  }

  /** The link leads to a node whose key is below `key`. */
  ghost predicate LinkLess<Id, Key>(cmp: Comparator<Key>, p: Pool<Id, Key>, l: Link<Id>, key: Key) {
    l.To? && NodeLess(cmp, p, l.node, key)
  }

  ghost predicate Keyed<Id, Key>(p: Pool<Id, Key>, c: seq<Id>) {
    forall j :: 0 <= j < |c| ==> c[j] in p.keys
  }

  /** Key order along a chain; the head's key does not take part. */
  ghost predicate Sorted<Id, Key>(cmp: Comparator<Key>, p: Pool<Id, Key>, c: seq<Id>) {
    forall j, k :: 1 <= j < k < |c| ==> NodeLeq(cmp, p, c[j], c[k])
  }

  /** Position r splits the chain: everything up to r is below the key, nothing behind it is. */
  ghost predicate Splits<Id, Key>(cmp: Comparator<Key>, p: Pool<Id, Key>, c: seq<Id>, key: Key, r: nat) {
    && r < |c|
    && (forall j :: 1 <= j <= r ==> NodeLess(cmp, p, c[j], key))
    && (forall j :: r < j < |c| ==> !NodeLess(cmp, p, c[j], key))
  }

  /** Linear scan of a chain from position `j` through nodes below `key`. */
  ghost function Scan<Id, Key>(cmp: Comparator<Key>, p: Pool<Id, Key>, c: seq<Id>, key: Key, j: nat): (r: nat)
    requires j < |c|
    ensures j <= r < |c|
    decreases |c| - j
  {
    if j + 1 < |c| && NodeLess(cmp, p, c[j + 1], key) then Scan(cmp, p, c, key, j + 1) else j
  }

  /** Where a linear scan from the head stops: the number of nodes met below `key`. */
  ghost function Rank<Id, Key>(cmp: Comparator<Key>, p: Pool<Id, Key>, c: seq<Id>, key: Key): (r: nat)
    requires |c| > 0
    ensures r < |c|
  {
    Scan(cmp, p, c, key, 0)
  }

  /** The answer a search for the first node at or after `key` has to give. */
  ghost function FirstAtLeast<Id, Key>(cmp: Comparator<Key>, p: Pool<Id, Key>, c: seq<Id>, key: Key): Link<Id>
    requires |c| > 0
  {
    LinkAfter(c, Rank(cmp, p, c, key))
  }

  /** On a sorted chain it is enough to look at a position and its successor. */
  lemma LocalSplit<Id, Key(!new)>(cmp: Comparator<Key>, p: Pool<Id, Key>, c: seq<Id>, key: Key, r: nat)
    requires TotalPreorder(cmp) && Keyed(p, c) && Sorted(cmp, p, c)
    requires r < |c|
    requires r > 0 ==> NodeLess(cmp, p, c[r], key)
    requires !LinkLess(cmp, p, LinkAfter(c, r), key)
    ensures Splits(cmp, p, c, key, r)
  {
    forall j | 1 <= j < r
      ensures NodeLess(cmp, p, c[j], key)
    {
      assert NodeLeq(cmp, p, c[j], c[r]);
      LeqLess(cmp, p.keys[c[j]], p.keys[c[r]], key);
    }
    forall j | r + 1 < j < |c|
      ensures !NodeLess(cmp, p, c[j], key)
    {
      assert NodeLeq(cmp, p, c[r + 1], c[j]);
      if NodeLess(cmp, p, c[j], key) {
        LeqLess(cmp, p.keys[c[r + 1]], p.keys[c[j]], key);
      }
    }
  }

  /** Whatever way a position was found, if it splits the chain it is where the linear scan stops. */
  lemma SplitIsRank<Id, Key>(cmp: Comparator<Key>, p: Pool<Id, Key>, c: seq<Id>, key: Key, r: nat)
    requires Splits(cmp, p, c, key, r)
    ensures r == Rank(cmp, p, c, key)
  {
    ScanStops(cmp, p, c, key, 0, r);
  }

  lemma {:induction false} ScanStops<Id, Key>(cmp: Comparator<Key>, p: Pool<Id, Key>, c: seq<Id>, key: Key, j: nat, r: nat)
    requires j <= r && Splits(cmp, p, c, key, r)
    ensures r == Scan(cmp, p, c, key, j)
    decreases r - j
  {
    if j < r {
      ScanStops(cmp, p, c, key, j + 1, r);
    }
  }

  lemma {:induction false} ScanSplits<Id, Key>(cmp: Comparator<Key>, p: Pool<Id, Key>, c: seq<Id>, key: Key, j: nat)
    requires j < |c|
    ensures var r := Scan(cmp, p, c, key, j);
            (r > j ==> NodeLess(cmp, p, c[r], key)) && !LinkLess(cmp, p, LinkAfter(c, r), key)
    decreases |c| - j
  {
    if j + 1 < |c| && NodeLess(cmp, p, c[j + 1], key) {
      ScanSplits(cmp, p, c, key, j + 1);
    }
  }

  lemma RankSplits<Id, Key(!new)>(cmp: Comparator<Key>, p: Pool<Id, Key>, c: seq<Id>, key: Key)
    requires TotalPreorder(cmp) && Keyed(p, c) && Sorted(cmp, p, c) && |c| > 0
    ensures Splits(cmp, p, c, key, Rank(cmp, p, c, key))
  {
    ScanSplits(cmp, p, c, key, 0);
    LocalSplit(cmp, p, c, key, Rank(cmp, p, c, key));
  }

  // ---- sortedness across an insertion ---------------------------------------

  /** The new key fits between a node and its successor on one level. */
  ghost predicate Fits<Id, Key>(cmp: Comparator<Key>, p: Pool<Id, Key>, c: seq<Id>, x: Id, key: Key)
    requires x in c
  {
    var r := IndexOf(c, x);
    && (r > 0 ==> x in p.keys && cmp(p.keys[x], key) <= 0)
    && (r + 1 < |c| ==> c[r + 1] in p.keys && cmp(key, p.keys[c[r + 1]]) <= 0)
  }

  /**
   Linking a new node in behind `x` leaves the level sorted exactly when the level
   was sorted and the key fits there.  An inverted pair is never repaired.
   */
  lemma SortedInsert<Id, Key(!new)>(cmp: Comparator<Key>, p: Pool<Id, Key>, c: seq<Id>, x: Id, y: Id, key: Key, height: nat)
    requires TotalPreorder(cmp) && Keyed(p, c)
    requires x in c && y !in p.keys
    ensures Sorted(cmp, p.Add(y, key, height), InsertAfter(c, x, y))
            <==> Sorted(cmp, p, c) && Fits(cmp, p, c, x, key)
  {
    if Sorted(cmp, p, c) && Fits(cmp, p, c, x, key) {
      SortedInsertFits(cmp, p, c, x, y, key, height);
    }
    if Sorted(cmp, p.Add(y, key, height), InsertAfter(c, x, y)) {
      SortedInsertOnly(cmp, p, c, x, y, key, height);
    }
  }

  lemma SortedInsertFits<Id, Key(!new)>(cmp: Comparator<Key>, p: Pool<Id, Key>, c: seq<Id>, x: Id, y: Id, key: Key, height: nat)
    requires TotalPreorder(cmp) && Keyed(p, c)
    requires x in c && y !in p.keys
    requires Sorted(cmp, p, c) && Fits(cmp, p, c, x, key)
    ensures Sorted(cmp, p.Add(y, key, height), InsertAfter(c, x, y))
  {
    var r := IndexOf(c, x);
    var d := InsertAfter(c, x, y);
    var q := p.Add(y, key, height);
    forall j, k | 1 <= j < k < |d|
      ensures NodeLeq(cmp, q, d[j], d[k])
    {
      if j == r + 1 {
        if k > r + 2 {
          assert NodeLeq(cmp, p, c[r + 1], c[k - 1]);
          Leq(cmp, key, p.keys[c[r + 1]], p.keys[c[k - 1]]);
        }
      } else if k == r + 1 {
        if j < r {
          assert NodeLeq(cmp, p, c[j], c[r]);
          Leq(cmp, p.keys[c[j]], p.keys[c[r]], key);
        }
      } else {
        var j' := if j <= r then j else j - 1;
        var k' := if k <= r then k else k - 1;
        assert NodeLeq(cmp, p, c[j'], c[k']);
      }
    }
  }

  lemma SortedInsertOnly<Id, Key(!new)>(cmp: Comparator<Key>, p: Pool<Id, Key>, c: seq<Id>, x: Id, y: Id, key: Key, height: nat)
    requires TotalPreorder(cmp) && Keyed(p, c)
    requires x in c && y !in p.keys
    requires Sorted(cmp, p.Add(y, key, height), InsertAfter(c, x, y))
    ensures Sorted(cmp, p, c) && Fits(cmp, p, c, x, key)
  {
    var r := IndexOf(c, x);
    var d := InsertAfter(c, x, y);
    var q := p.Add(y, key, height);
    forall j, k | 1 <= j < k < |c|
      ensures NodeLeq(cmp, p, c[j], c[k])
    {
      var j' := if j <= r then j else j + 1;
      var k' := if k <= r then k else k + 1;
      assert d[j'] == c[j] && d[k'] == c[k];
      assert NodeLeq(cmp, q, d[j'], d[k']);
    }
    assert r > 0 ==> NodeLeq(cmp, q, d[r], d[r + 1]);
    assert r + 1 < |c| ==> NodeLeq(cmp, q, d[r + 1], d[r + 2]);
  }

  /** A position that splits the chain fits. */
  lemma SplitFits<Id, Key(!new)>(cmp: Comparator<Key>, p: Pool<Id, Key>, c: seq<Id>, x: Id, key: Key)
    requires TotalPreorder(cmp) && Keyed(p, c)
    requires x in c && Splits(cmp, p, c, key, IndexOf(c, x))
    ensures Fits(cmp, p, c, x, key)
  {
  }

  // ---- contents -------------------------------------------------------------

  /** The keys met along a chain, head excluded. */
  ghost function KeysAlong<Id, Key>(p: Pool<Id, Key>, c: seq<Id>): (s: seq<Key>)
    requires |c| > 0 && Keyed(p, c)
    ensures |s| == |c| - 1
    ensures forall j :: 0 <= j < |s| ==> s[j] == p.keys[c[j + 1]]
  {
    seq(|c| - 1, j requires 0 <= j < |c| - 1 => p.keys[c[j + 1]])
  }

  lemma KeysAfterInsert<Id, Key>(p: Pool<Id, Key>, c: seq<Id>, x: Id, y: Id, key: Key, height: nat)
    requires x in c && Keyed(p, c) && y !in p.keys
    ensures Keyed(p.Add(y, key, height), InsertAfter(c, x, y))
    ensures multiset(KeysAlong(p.Add(y, key, height), InsertAfter(c, x, y))) == multiset(KeysAlong(p, c)) + multiset{key}
  {
    var r := IndexOf(c, x);
    var q := p.Add(y, key, height);
    var d := InsertAfter(c, x, y);
    forall j | 0 <= j < |d|
      ensures d[j] in q.keys
    {
      if j != r + 1 {
        assert d[j] == c[if j <= r then j else j - 1];
      }
    }
    var s := KeysAlong(p, c);
    assert s == s[..r] + s[r..];
    assert KeysAlong(q, d) == s[..r] + [key] + s[r..];
  }
}
