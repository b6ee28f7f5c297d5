/**
 What a user of the skip list may rely on while one thread inserts and others look
 up keys: every insertion and every lookup happens at one instant between its call
 and its return.
 */
module Atomic {
  import opened Ordering

  datatype Event<Key> =
    | CallInsert(key: Key)
    | TakeEffect(key: Key)
    | ReturnInsert(key: Key)
    | CallContains(reader: nat, key: Key)
    | Decide(reader: nat, found: bool)
    | ReturnContains(reader: nat, found: bool)
    | Internal

  datatype Insertion<Key> = NoInsertion | Pending(key: Key) | Effective(key: Key)

  datatype Lookup<Key> = Asked(key: Key) | Decided(key: Key, found: bool)

  datatype Abstract<Key> = Abstract(contents: multiset<Key>, insertion: Insertion<Key>, lookups: map<nat, Lookup<Key>>)

  ghost predicate Present<Key(!new)>(cmp: Comparator<Key>, contents: multiset<Key>, key: Key) {
    exists k :: k in contents && cmp(key, k) == 0
  }

  ghost predicate Step<Key(!new)>(cmp: Comparator<Key>, a: Abstract<Key>, e: Event<Key>, b: Abstract<Key>) {
    match e
    case CallInsert(k) =>
      a.insertion == NoInsertion && b == a.(insertion := Pending(k))
    case TakeEffect(k) =>
      a.insertion == Pending(k) && b == a.(insertion := Effective(k), contents := a.contents + multiset{k})
    case ReturnInsert(k) =>
      a.insertion == Effective(k) && b == a.(insertion := NoInsertion)
    case CallContains(r, k) =>
      r !in a.lookups && b == a.(lookups := a.lookups[r := Asked(k)])
    case Decide(r, found) =>
      && r in a.lookups && a.lookups[r].Asked?
      && (found <==> Present(cmp, a.contents, a.lookups[r].key))
      && b == a.(lookups := a.lookups[r := Decided(a.lookups[r].key, found)])
    case ReturnContains(r, found) =>
      && r in a.lookups && a.lookups[r].Decided? && a.lookups[r].found == found
      && b == a.(lookups := a.lookups - {r})
    case Internal =>
      b == a
  }

  /** `states` is a run of the atomic machine that shows `events`. */
  ghost predicate Run<Key(!new)>(cmp: Comparator<Key>, states: seq<Abstract<Key>>, events: seq<Event<Key>>) {
    && |states| == |events| + 1
    && states[0] == Abstract(multiset{}, NoInsertion, map[])
    && forall i :: 0 <= i < |events| ==> Step(cmp, states[i], events[i], states[i + 1])
  }

  // ---- what a history of calls and returns shows -------------------------------------

  lemma {:induction false} ContentsGrow<Key(!new)>(cmp: Comparator<Key>, states: seq<Abstract<Key>>, events: seq<Event<Key>>, i: nat, j: nat)
    requires Run(cmp, states, events) && i <= j < |states|
    ensures states[i].contents <= states[j].contents
    decreases j - i
  {
    if i < j {
      ContentsGrow(cmp, states, events, i, j - 1);
      assert Step(cmp, states[j - 1], events[j - 1], states[j]);
    }
  }

  /** An insertion that is past its instant has its key in the contents. */
  lemma {:induction false} EffectivePresent<Key(!new)>(cmp: Comparator<Key>, states: seq<Abstract<Key>>, events: seq<Event<Key>>, i: nat)
    requires Run(cmp, states, events) && i < |states| && states[i].insertion.Effective?
    ensures states[i].insertion.key in states[i].contents
    decreases i
  {
    if i > 0 {
      assert Step(cmp, states[i - 1], events[i - 1], states[i]);
      if states[i - 1].insertion.Effective? {
        EffectivePresent(cmp, states, events, i - 1);
      }
    }
  }

  ghost predicate Quiet<Key(!new)>(events: seq<Event<Key>>, r: nat, i: nat, j: nat)
    requires i <= j <= |events|
  {
    forall m :: i <= m < j ==> !(events[m].CallContains? && events[m].reader == r)
                               && !(events[m].ReturnContains? && events[m].reader == r)
  }

  /** Between its call and its return a lookup keeps its key, and cannot miss what was there at the call. */
  lemma {:induction false} LookupKept<Key(!new)>(cmp: Comparator<Key>, states: seq<Abstract<Key>>, events: seq<Event<Key>>,
                                                r: nat, key: Key, i: nat, j: nat)
    requires Run(cmp, states, events) && i < j < |states|
    requires events[i] == CallContains(r, key) && Quiet(events, r, i + 1, j)
    ensures r in states[j].lookups && states[j].lookups[r].key == key
    ensures states[j].lookups[r].Decided? && Present(cmp, states[i].contents, key) ==> states[j].lookups[r].found
    ensures states[j].lookups[r].Decided? && states[j].lookups[r].found ==> Present(cmp, states[j].contents, key)
    decreases j
  {
    hide Present;
    assert Step(cmp, states[j - 1], events[j - 1], states[j]);
    if i + 1 < j {
      LookupKept(cmp, states, events, r, key, i, j - 1);
      ContentsGrow(cmp, states, events, i, j - 1);
      ContentsGrow(cmp, states, events, j - 1, j);
      PresentGrows(cmp, states[i].contents, states[j - 1].contents, key);
      PresentGrows(cmp, states[j - 1].contents, states[j].contents, key);
    }
  }

  lemma PresentGrows<Key(!new)>(cmp: Comparator<Key>, c: multiset<Key>, d: multiset<Key>, key: Key)
    requires c <= d
    ensures Present(cmp, c, key) ==> Present(cmp, d, key)
  {
    if Present(cmp, c, key) {
      var k :| k in c && cmp(key, k) == 0;
      assert k in d;
    }
  }

  /** A lookup called after an insertion of an equal key returned finds it. */
  lemma InsertedIsFound<Key(!new)>(cmp: Comparator<Key>, states: seq<Abstract<Key>>, events: seq<Event<Key>>,
                                   k: Key, key: Key, r: nat, found: bool, h: nat, i: nat, j: nat)
    requires Run(cmp, states, events) && h < i < j < |events|
    requires events[h] == ReturnInsert(k) && cmp(key, k) == 0
    requires events[i] == CallContains(r, key) && Quiet(events, r, i + 1, j)
    requires events[j] == ReturnContains(r, found)
    ensures found
  {
    assert Step(cmp, states[h], events[h], states[h + 1]);
    assert Step(cmp, states[j], events[j], states[j + 1]);
    EffectivePresent(cmp, states, events, h);
    ContentsGrow(cmp, states, events, h, i);
    assert k in states[i].contents;
    LookupKept(cmp, states, events, r, key, i, j);
  }

  /** Whatever is in the contents was the argument of an earlier insertion call. */
  lemma {:induction false} PresentWasCalled<Key(!new)>(cmp: Comparator<Key>, states: seq<Abstract<Key>>, events: seq<Event<Key>>, j: nat, k: Key)
    requires Run(cmp, states, events) && j < |states|
    requires k in states[j].contents || states[j].insertion == Pending(k)
    ensures exists h :: 0 <= h < j && events[h] == CallInsert(k)
    decreases j
  {
    if j > 0 {
      assert Step(cmp, states[j - 1], events[j - 1], states[j]);
      if events[j - 1] != CallInsert(k) {
        PresentWasCalled(cmp, states, events, j - 1, k);
      }
    }
  }

  /** A lookup that returns true was preceded by the call of an insertion of an equal key. */
  lemma FoundWasInserted<Key(!new)>(cmp: Comparator<Key>, states: seq<Abstract<Key>>, events: seq<Event<Key>>,
                                    key: Key, r: nat, i: nat, j: nat)
    requires Run(cmp, states, events) && i < j < |events|
    requires events[i] == CallContains(r, key) && Quiet(events, r, i + 1, j)
    requires events[j] == ReturnContains(r, true)
    ensures exists h, k :: 0 <= h < j && events[h] == CallInsert(k) && cmp(key, k) == 0
  {
    assert Step(cmp, states[j], events[j], states[j + 1]);
    LookupKept(cmp, states, events, r, key, i, j);
    var k :| k in states[j].contents && cmp(key, k) == 0;
    PresentWasCalled(cmp, states, events, j, k);
  }

  /** Once a lookup found a key, no later lookup of an equal key misses it. */
  lemma FoundStaysFound<Key(!new)>(cmp: Comparator<Key>, states: seq<Abstract<Key>>, events: seq<Event<Key>>,
                                   key: Key, r: nat, i: nat, j: nat, key': Key, q: nat, found: bool, m: nat, n: nat)
    requires TotalPreorder(cmp) && cmp(key', key) == 0
    requires Run(cmp, states, events) && i < j < m < n < |events|
    requires events[i] == CallContains(r, key) && Quiet(events, r, i + 1, j) && events[j] == ReturnContains(r, true)
    requires events[m] == CallContains(q, key') && Quiet(events, q, m + 1, n) && events[n] == ReturnContains(q, found)
    ensures found
  {
    assert Step(cmp, states[j], events[j], states[j + 1]);
    assert Step(cmp, states[n], events[n], states[n + 1]);
    LookupKept(cmp, states, events, r, key, i, j);
    ContentsGrow(cmp, states, events, j, m);
    var k :| k in states[j].contents && cmp(key, k) == 0;
    EqualKeys(cmp, key', key, k);
    assert k in states[m].contents;
    LookupKept(cmp, states, events, q, key', m, n);
  }

  lemma EqualKeys<Key(!new)>(cmp: Comparator<Key>, a: Key, b: Key, c: Key)
    requires TotalPreorder(cmp) && cmp(a, b) == 0 && cmp(b, c) == 0
    ensures cmp(a, c) == 0
  {
    assert Compared(a, b, c) && Compared(c, b, a);
  }
}
