/**
 Which levels a whole run of insertions leaves out of key order, read off the inserted keys
 and the seed of the generator alone.
 */
module LevelHistory {
  import opened Lists
  import opened Ordering
  import opened SkipLists

  // ---- heights ----------------------------------------------------------------------------

  /** The state of the generator after it drew the heights of n nodes. */
  function SeedAfter(seed: nat, n: nat): nat {
    if n == 0 then seed else Roll(SeedAfter(seed, n - 1), 1).1
  }

  /** The height of the n-th node, counted from 0. */
  function HeightAt(seed: nat, n: nat): (h: nat)
    ensures 1 <= h <= MAX_HEIGHT
  {
    Roll(SeedAfter(seed, n), 1).0
  }

  // ---- which levels lose their order ---------------------------------------------------------

  /**
   The n-th key belongs directly behind the key inserted before it: that key is below it, and no
   earlier key lies from that key up to it.
   */
  ghost predicate Follows<Key>(cmp: Comparator<Key>, keys: seq<Key>, n: nat)
    requires n < |keys|
  {
    n == 0 || (Less(cmp, keys[n - 1], keys[n]) && !SomeBetween(cmp, keys[..n - 1], keys[n - 1], keys[n]))
  }

  /** A node reached level i at the m-th insertion, and every key from there up to the n-th followed the one before. */
  ghost predicate LinkedSince<Key>(cmp: Comparator<Key>, keys: seq<Key>, seed: nat, i: nat, m: nat, n: nat)
    requires n <= |keys|
  {
    i < HeightAt(seed, m) && forall j :: m < j < n ==> Follows(cmp, keys, j)
  }

  ghost predicate Touched<Key>(cmp: Comparator<Key>, keys: seq<Key>, seed: nat, i: nat, n: nat)
    requires n <= |keys|
  {
    exists m :: 0 <= m < n && LinkedSince(cmp, keys, seed, i, m, n)
  }

  /** The n-th insertion puts a larger key in front of a smaller one on level i. */
  ghost predicate Inverts<Key>(cmp: Comparator<Key>, keys: seq<Key>, seed: nat, i: nat, n: nat)
    requires n < |keys|
  {
    i < HeightAt(seed, n) && Follows(cmp, keys, n) && Touched(cmp, keys, seed, i, n)
  }

  /**
   Two nodes reach level i, the second of them and every key inserted between the two following
   the key before it.
   */
  ghost predicate Disordered<Key>(cmp: Comparator<Key>, keys: seq<Key>, seed: nat, i: nat) {
    exists n :: 0 <= n < |keys| && Inverts(cmp, keys, seed, i, n)
  }

  // ---- one more key ----------------------------------------------------------------------------

  lemma FollowsPrefix<Key>(cmp: Comparator<Key>, keys: seq<Key>, key: Key, n: nat)
    requires n < |keys|
    ensures Follows(cmp, keys + [key], n) <==> Follows(cmp, keys, n)
  {
    if n > 0 {
      assert (keys + [key])[..n - 1] == keys[..n - 1];
    }
  }

  lemma TouchedPrefix<Key>(cmp: Comparator<Key>, keys: seq<Key>, key: Key, seed: nat, i: nat, n: nat)
    requires n <= |keys|
    ensures Touched(cmp, keys + [key], seed, i, n) <==> Touched(cmp, keys, seed, i, n)
  {
    hide Follows, HeightAt;
    forall m: nat | m < n
      ensures LinkedSince(cmp, keys + [key], seed, i, m, n) <==> LinkedSince(cmp, keys, seed, i, m, n)
    {
      forall j | m < j < n
        ensures Follows(cmp, keys + [key], j) <==> Follows(cmp, keys, j)
      {
        FollowsPrefix(cmp, keys, key, j);
      }
    }
  }

  lemma TouchedStep<Key>(cmp: Comparator<Key>, keys: seq<Key>, seed: nat, i: nat, n: nat)
    requires n < |keys|
    ensures Touched(cmp, keys, seed, i, n + 1) <==>
            i < HeightAt(seed, n) || (Follows(cmp, keys, n) && Touched(cmp, keys, seed, i, n))
  {
    hide Follows, HeightAt;
    if Touched(cmp, keys, seed, i, n + 1) && i >= HeightAt(seed, n) {
      var m: nat :| m < n + 1 && LinkedSince(cmp, keys, seed, i, m, n + 1);
      assert Follows(cmp, keys, n) && LinkedSince(cmp, keys, seed, i, m, n);
    }
    if i < HeightAt(seed, n) {
      assert LinkedSince(cmp, keys, seed, i, n, n + 1);
    } else if Follows(cmp, keys, n) && Touched(cmp, keys, seed, i, n) {
      var m: nat :| m < n && LinkedSince(cmp, keys, seed, i, m, n);
      assert LinkedSince(cmp, keys, seed, i, m, n + 1);
    }
  }

  /** How one more insertion changes the two predicates. */
  lemma OneMore<Key>(cmp: Comparator<Key>, keys: seq<Key>, key: Key, seed: nat, i: nat)
    ensures var all, n := keys + [key], |keys|;
            var reused := Follows(cmp, all, n) && Touched(cmp, keys, seed, i, n);
            && (Touched(cmp, all, seed, i, n + 1) <==> reused || i < HeightAt(seed, n))
            && (Disordered(cmp, all, seed, i) <==> Disordered(cmp, keys, seed, i) || (reused && i < HeightAt(seed, n)))
  {
    hide Follows, HeightAt, Touched;
    var all, n := keys + [key], |keys|;
    TouchedStep(cmp, all, seed, i, n);
    TouchedPrefix(cmp, keys, key, seed, i, n);
    forall m: nat | m < n
      ensures Inverts(cmp, all, seed, i, m) <==> Inverts(cmp, keys, seed, i, m)
    {
      FollowsPrefix(cmp, keys, key, m);
      TouchedPrefix(cmp, keys, key, seed, i, m);
    }
    if Disordered(cmp, keys, seed, i) {
      var m: nat :| m < |keys| && Inverts(cmp, keys, seed, i, m);
      assert Inverts(cmp, all, seed, i, m);
    }
    if Inverts(cmp, all, seed, i, n) {
      assert Disordered(cmp, all, seed, i);
    }
  }

  // ---- two orders of insertion --------------------------------------------------------------------

  ghost predicate Increasing<Key>(cmp: Comparator<Key>, keys: seq<Key>) {
    forall j, k :: 0 <= j < k < |keys| ==> Less(cmp, keys[j], keys[k])
  }

  ghost predicate NonIncreasing<Key>(cmp: Comparator<Key>, keys: seq<Key>) {
    forall j, k :: 0 <= j < k < |keys| ==> cmp(keys[k], keys[j]) <= 0
  }

  predicate Reaches(seed: nat, i: nat, n: nat) {
    i < HeightAt(seed, n)
  }

  /** Two of the first n nodes reach level i. */
  ghost predicate TwoReach(seed: nat, i: nat, n: nat) {
    exists a, b :: 0 <= a < b < n && Reaches(seed, i, a) && Reaches(seed, i, b)
  }

  /** Inserting increasing keys puts a level out of order exactly when two nodes reach it. */
  lemma IncreasingDisorders<Key(!new)>(cmp: Comparator<Key>, keys: seq<Key>, seed: nat, i: nat)
    requires TotalPreorder(cmp) && Increasing(cmp, keys)
    ensures Disordered(cmp, keys, seed, i) <==> TwoReach(seed, i, |keys|)
  {
    hide HeightAt;
    forall n: nat | n < |keys|
      ensures Follows(cmp, keys, n)
    {
      if n > 0 {
        var earlier := keys[..n - 1];
        forall j | 0 <= j < |earlier|
          ensures !Between(cmp, keys[n - 1], earlier[j], keys[n])
        {
          assert Less(cmp, keys[j], keys[n - 1]);
        }
      }
    }
    hide Follows;
    if Disordered(cmp, keys, seed, i) {
      var n: nat :| n < |keys| && Inverts(cmp, keys, seed, i, n);
      var m: nat :| m < n && LinkedSince(cmp, keys, seed, i, m, n);
      assert Reaches(seed, i, m) && Reaches(seed, i, n);
    }
    if TwoReach(seed, i, |keys|) {
      var a: nat, b: nat :| a < b < |keys| && Reaches(seed, i, a) && Reaches(seed, i, b);
      assert LinkedSince(cmp, keys, seed, i, a, b);
      assert Inverts(cmp, keys, seed, i, b);
    }
  }

  /** Inserting keys that never grow keeps every level in order. */
  lemma NonIncreasingKeepsOrder<Key(!new)>(cmp: Comparator<Key>, keys: seq<Key>, seed: nat, i: nat)
    requires TotalPreorder(cmp) && NonIncreasing(cmp, keys)
    ensures !Disordered(cmp, keys, seed, i)
  {
    hide HeightAt;
    forall n: nat | n < |keys|
      ensures !Inverts(cmp, keys, seed, i, n)
    {
      if n > 0 {
        assert cmp(keys[n], keys[n - 1]) <= 0;
      }
    }
  }
}
