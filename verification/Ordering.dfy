/**
 Three-way comparators.  The skip list is a template over a key type and a
 comparator object; all it may rely on is that the comparator is a total
 preorder, so two different keys may compare equal.
 */
module Ordering {

  type Comparator<!Key> = (Key, Key) -> int

  ghost predicate TotalPreorder<Key(!new)>(cmp: Comparator<Key>) {
    && (forall a, b :: cmp(a, b) < 0 <==> cmp(b, a) > 0)
    && (forall a, b, c {:trigger Compared(a, b, c)} ::
          cmp(a, b) <= 0 && cmp(b, c) <= 0 ==> cmp(a, c) <= 0)
  }

  /** Always true; mentioning it asks for transitivity at these three keys. */
  ghost predicate Compared<Key>(a: Key, b: Key, c: Key) {
    true
  }

  predicate Less<Key>(cmp: Comparator<Key>, a: Key, b: Key) {
    cmp(a, b) < 0
  }

  lemma LeqLess<Key(!new)>(cmp: Comparator<Key>, a: Key, b: Key, c: Key)
    requires TotalPreorder(cmp)
    requires cmp(a, b) <= 0 && Less(cmp, b, c)
    ensures Less(cmp, a, c)
  {
    assert Compared(c, a, b) && Compared(a, b, c);
  }

  lemma Leq<Key(!new)>(cmp: Comparator<Key>, a: Key, b: Key, c: Key)
    requires TotalPreorder(cmp)
    requires cmp(a, b) <= 0 && cmp(b, c) <= 0
    ensures cmp(a, c) <= 0
  {
    assert Compared(a, b, c);
  }

  /** `b` lies from `a`, inclusive, up to `c`. */
  predicate Between<Key>(cmp: Comparator<Key>, a: Key, b: Key, c: Key) {
    cmp(a, b) <= 0 && Less(cmp, b, c)
  }

  ghost predicate SomeBetween<Key>(cmp: Comparator<Key>, s: seq<Key>, a: Key, c: Key) {
    exists j :: 0 <= j < |s| && Between(cmp, a, s[j], c)
  }
}
