/**
 How many loads a search may take while the list grows under it.
 */
module SearchBound {
  import opened Chains
  import opened Linearizability
  import opened Lists
  import opened LockFree
  import opened Ordering

  /** How many links reader r loads in the steps from i up to j. */
  ghost function Loads<Key>(actions: seq<Action<Key>>, r: nat, i: nat, j: nat): nat
    requires i <= j <= |actions|
    decreases j
  {
    if i == j then 0 else Loads(actions, r, i, j - 1) + if actions[j - 1] == LoadNext(r) then 1 else 0
  }

  /** The lengths of the levels from `level` upwards, added up. */
  function Total<Id>(chains: seq<seq<Id>>, level: nat): (n: nat)
    requires level <= |chains|
    decreases |chains| - level
  {
    if level == |chains| then 0 else |chains[level]| + Total(chains, level + 1)
  }

  /** The most loads that can have brought a search where it stands: all levels above, and its own level up to its node. */
  ghost function Budget<Key>(chains: seq<seq<nat>>, t: Reader<Key>): nat {
    match t
    case Entered(_) => 0
    case Searching(_, x, level) =>
      if level < |chains| && x in chains[level] then Total(chains, level + 1) + IndexOf(chains[level], x) else 0
    case Answering(_, _) => Total(chains, 0)
  }

  // ---- growth --------------------------------------------------------------------------------

  /** Every level of `d` is at least as long as in `c`, and no node moved towards the head. */
  ghost predicate Longer<Id>(c: seq<seq<Id>>, d: seq<seq<Id>>) {
    && |c| == |d|
    && (forall i :: 0 <= i < |c| ==> |c[i]| <= |d[i]|)
    && (forall i, x :: 0 <= i < |c| && x in c[i] ==> x in d[i] && IndexOf(c[i], x) <= IndexOf(d[i], x))
  }

  lemma {:induction false} TotalLonger<Id>(c: seq<seq<Id>>, d: seq<seq<Id>>, level: nat)
    requires Longer(c, d) && level <= |c|
    ensures Total(c, level) <= Total(d, level)
    decreases |c| - level
  {
    if level < |c| {
      TotalLonger(c, d, level + 1);
    }
  }

  lemma {:induction false} TotalParts<Id>(c: seq<seq<Id>>, level: nat)
    requires level < |c|
    ensures Total(c, level + 1) + |c[level]| <= Total(c, 0)
    decreases level
  {
    if level > 0 {
      TotalParts(c, level - 1);
    }
  }

  lemma BudgetLonger<Key>(c: seq<seq<nat>>, d: seq<seq<nat>>, t: Reader<Key>)
    requires Longer(c, d)
    ensures Budget(c, t) <= Budget(d, t)
  {
    if t.Answering? {
      TotalLonger(c, d, 0);
    } else if t.Searching? && t.level < |c| {
      TotalLonger(c, d, t.level + 1);
    }
  }

  /** A search that has not answered has loads left. */
  lemma BudgetBelow<Key>(c: seq<seq<nat>>, t: Reader<Key>)
    ensures Budget(c, t) <= Total(c, 0)
    ensures t.Searching? && Total(c, 0) > 0 ==> Budget(c, t) < Total(c, 0)
  {
    if t.Searching? && t.level < |c| {
      TotalParts(c, t.level);
    }
  }

  /** Linking a node in moves no node towards the head. */
  lemma InsertLonger<Id>(c: seq<Id>, x: Id, y: Id, z: Id)
    requires Distinct(c) && x in c && y !in c && z in c && Distinct(InsertAfter(c, x, y))
    ensures z in InsertAfter(c, x, y) && IndexOf(c, z) <= IndexOf(InsertAfter(c, x, y), z)
  {
    var j, k := IndexOf(c, x), IndexOf(c, z);
    var d := InsertAfter(c, x, y);
    assert d[if k <= j then k else k + 1] == z;
  }

  lemma AttachLonger<Key(!new)>(cmp: Comparator<Key>, l: List<nat, Key>, y: nat, level: nat)
    requires Inv(cmp, l) && level < MAX_HEIGHT && y !in l.chains[level] && Inv(cmp, Attach(l, y, level))
    ensures Longer(l.chains, Attach(l, y, level).chains)
  {
    hide Inv;
    Shape(cmp, l);
    var m := Attach(l, y, level);
    forall i, x | 0 <= i < MAX_HEIGHT && x in l.chains[i]
      ensures x in m.chains[i] && IndexOf(l.chains[i], x) <= IndexOf(m.chains[i], x)
    {
      if i == level {
        InvKeyed(cmp, l, i);
        InvKeyed(cmp, m, i);
        InsertLonger(l.chains[i], l.prev[i], y, x);
      }
    }
  }

  /** Along every step the levels only get longer; without a publication they stay. */
  lemma StepLonger<Key(!new)>(cmp: Comparator<Key>, s: State<Key>, v: View, a: Action<Key>)
    requires Good(cmp, s, v) && Enabled(s, a) && Good(cmp, Next(cmp, s, a), NextView(s, v, a))
    ensures Longer(v.chains, NextView(s, v, a).chains)
    ensures !a.Publish? ==> NextView(s, v, a).chains == v.chains
  {
    hide Inv, ReaderInv, Longer;
    if a.Publish? {
      PublishLonger(cmp, s, v);
    } else {
      LongerReflexive(v.chains);
    }
  }

  lemma LongerReflexive<Id>(c: seq<seq<Id>>)
    ensures Longer(c, c)
  {
  }

  lemma PublishLonger<Key(!new)>(cmp: Comparator<Key>, s: State<Key>, v: View)
    requires Good(cmp, s, v) && s.writer.Publishing? && Good(cmp, PublishNext(s), NextView(s, v, Publish))
    ensures Longer(v.chains, NextView(s, v, Publish).chains)
  {
    hide Inv, ReaderInv, Longer, Gap, Settled;
    var l, level, y := ListOf(s, v), s.writer.level, s.writer.node;
    Shape(cmp, l);
    NotYetLinked(cmp, l, y, level);
    assert ListOf(PublishNext(s), NextView(s, v, Publish)) == Attach(l, y, level);
    AttachLonger(cmp, l, y, level);
  }

  // ---- one search ------------------------------------------------------------------------------

  /** A step of its own takes at most one load from the budget of a search. */
  lemma OwnStep<Key(!new)>(cmp: Comparator<Key>, s: State<Key>, v: View, a: Action<Key>, r: nat)
    requires Good(cmp, s, v) && Enabled(s, a) && r in s.readers
    requires a == LoadHeight(r) || a == LoadNext(r)
    ensures r in Next(cmp, s, a).readers
    ensures Budget(v.chains, s.readers[r]) + (if a == LoadNext(r) then 1 else 0) <= Budget(v.chains, Next(cmp, s, a).readers[r])
  {
    if a == LoadNext(r) {
      LoadCosts(cmp, s, v, s.readers[r]);
    }
  }

  lemma LoadCosts<Key(!new)>(cmp: Comparator<Key>, s: State<Key>, v: View, t: Reader<Key>)
    requires Inv(cmp, ListOf(s, v)) && t.Searching? && ReaderInv(cmp, ListOf(s, v), t)
    ensures Budget(v.chains, t) + 1 <= Budget(v.chains, AfterLoad(cmp, s, t))
  {
    hide Inv;
    var l := ListOf(s, v);
    Shape(cmp, l);
    var Searching(key, x, level) := t;
    Advance(cmp, l, level, x, key);
    assert Total(v.chains, level) == |v.chains[level]| + Total(v.chains, level + 1);
    if level > 0 {
      Descend(cmp, l, level, level - 1, x);
    }
  }

  /** The search of reader r stands within its budget after so many loads. */
  ghost predicate Within<Key(!new)>(cmp: Comparator<Key>, s: State<Key>, v: View, r: nat, loads: nat) {
    Good(cmp, s, v) && r in s.readers && loads <= Budget(v.chains, s.readers[r])
  }

  /** The loads of a search never exceed the budget of where it stands. */
  lemma {:induction false} WithinBudget<Key(!new)>(cmp: Comparator<Key>, states: seq<State<Key>>, actions: seq<Action<Key>>,
                                                   key: Key, r: nat, i: nat, n: nat) returns (v: View)
    requires TotalPreorder(cmp) && Execution(cmp, states, actions) && i < n <= |actions|
    requires actions[i] == StartContains(r, key) && BusyOnly(actions, r, i + 1, n)
    ensures |states| == |actions| + 1 && Within(cmp, states[n], v, r, Loads(actions, r, i, n))
    decreases n
  {
    hide *;
    StepTaken(cmp, states, actions, n - 1);
    OneStepMore(actions, r, i, n);
    if n == i + 1 {
      v := Reachable(cmp, states, actions, n);
      JustEntered(cmp, states[i], key, r, v);
    } else {
      var u := WithinBudget(cmp, states, actions, key, r, i, n - 1);
      v := NextView(states[n - 1], u, actions[n - 1]);
      StepWithin(cmp, states[n - 1], u, actions[n - 1], r, Loads(actions, r, i, n - 1));
    }
  }

  lemma OneStepMore<Key(!new)>(actions: seq<Action<Key>>, r: nat, i: nat, n: nat)
    requires i < n <= |actions|
    ensures Loads(actions, r, i, i) == 0
    ensures Loads(actions, r, i, n) == Loads(actions, r, i, n - 1) + if actions[n - 1] == LoadNext(r) then 1 else 0
    ensures i + 1 < n && BusyOnly(actions, r, i + 1, n) ==>
            BusyOnly(actions, r, i + 1, n - 1)
            && actions[n - 1] != EndContains(r) && !(actions[n - 1].StartContains? && actions[n - 1].reader == r)
  {
  }

  lemma StepTaken<Key(!new)>(cmp: Comparator<Key>, states: seq<State<Key>>, actions: seq<Action<Key>>, k: nat)
    requires Execution(cmp, states, actions) && k < |actions|
    ensures |states| == |actions| + 1
    ensures Enabled(states[k], actions[k]) && states[k + 1] == Next(cmp, states[k], actions[k])
  {
  }

  lemma JustEntered<Key(!new)>(cmp: Comparator<Key>, s: State<Key>, key: Key, r: nat, v: View)
    requires Enabled(s, StartContains(r, key)) && Good(cmp, Next(cmp, s, StartContains(r, key)), v)
    ensures Within(cmp, Next(cmp, s, StartContains(r, key)), v, r, 0)
  {
    hide Good;
  }

  lemma StepWithin<Key(!new)>(cmp: Comparator<Key>, s: State<Key>, v: View, a: Action<Key>, r: nat, loads: nat)
    requires Within(cmp, s, v, r, loads) && Enabled(s, a)
    requires a != EndContains(r) && !(a.StartContains? && a.reader == r)
    ensures Within(cmp, Next(cmp, s, a), NextView(s, v, a), r, loads + if a == LoadNext(r) then 1 else 0)
  {
    hide Good, Budget, Longer, AfterLoad;
    StepKeeps(cmp, s, v, a);
    if a == LoadHeight(r) || a == LoadNext(r) {
      OwnStep(cmp, s, v, a, r);
    } else {
      StepLonger(cmp, s, v, a);
      BudgetLonger(v.chains, NextView(s, v, a).chains, s.readers[r]);
    }
  }

  // ---- main results ------------------------------------------------------------------------------

  /**
   In every execution and at every instant, a search has loaded at most as many links as the levels
   then have nodes in total, and fewer unless it has found its answer.
   */
  lemma LoadsBounded<Key(!new)>(cmp: Comparator<Key>, states: seq<State<Key>>, actions: seq<Action<Key>>,
                                key: Key, r: nat, i: nat, n: nat, chains: seq<seq<nat>>)
    requires TotalPreorder(cmp) && Execution(cmp, states, actions) && i < n <= |actions|
    requires actions[i] == StartContains(r, key) && BusyOnly(actions, r, i + 1, n)
    requires |chains| == MAX_HEIGHT && AllChains(states[n].pool, chains)
    ensures r in states[n].readers && Loads(actions, r, i, n) <= Total(chains, 0)
    ensures !states[n].readers[r].Answering? ==> Loads(actions, r, i, n) < Total(chains, 0)
  {
    StepTaken(cmp, states, actions, i);
    hide Execution, Budget, BusyOnly, Good, AllChains, Total, Next, Enabled;
    var v := WithinBudget(cmp, states, actions, key, r, i, n);
    SameChains(cmp, states[n], v, chains);
    BudgetBelow(chains, states[n].readers[r]);
    NotStarted(chains, states[n].readers[r]);
  }

  lemma NotStarted<Key>(chains: seq<seq<nat>>, t: Reader<Key>)
    requires |chains| == MAX_HEIGHT && forall k :: 0 <= k < MAX_HEIGHT ==> |chains[k]| > 0
    ensures Total(chains, 0) > 0 && (t.Entered? ==> Budget(chains, t) == 0)
  {
    assert |chains[0]| > 0;
  }

  lemma SameChains<Key(!new)>(cmp: Comparator<Key>, s: State<Key>, v: View, chains: seq<seq<nat>>)
    requires Good(cmp, s, v) && |chains| == MAX_HEIGHT && AllChains(s.pool, chains)
    ensures chains == v.chains && forall k :: 0 <= k < MAX_HEIGHT ==> |chains[k]| > 0
  {
    hide WriterInv, ReaderInv, TotalPreorder, Sorted, Membership;
    forall k | 0 <= k < MAX_HEIGHT
      ensures chains[k] == v.chains[k] && |chains[k]| > 0
    {
      ChainUnique(s.pool, k, chains[k], v.chains[k]);
    }
  }

  /** No node is published in the steps from i up to n. */
  ghost predicate NoPublication<Key(!new)>(actions: seq<Action<Key>>, i: nat, n: nat)
    requires i <= n <= |actions|
  {
    forall m :: i <= m < n ==> !actions[m].Publish?
  }

  lemma {:induction false} ChainsStay<Key(!new)>(cmp: Comparator<Key>, states: seq<State<Key>>, actions: seq<Action<Key>>,
                                                i: nat, n: nat) returns (u: View, v: View)
    requires TotalPreorder(cmp) && Execution(cmp, states, actions) && i <= n <= |actions| && NoPublication(actions, i, n)
    ensures Good(cmp, states[i], u) && Good(cmp, states[n], v) && u.chains == v.chains
    decreases n
  {
    hide Good, TotalPreorder, Longer, Next, NextView, Enabled;
    if i == n {
      u := Reachable(cmp, states, actions, i);
      v := u;
    } else {
      var w;
      u, w := ChainsStay(cmp, states, actions, i, n - 1);
      StepKeeps(cmp, states[n - 1], w, actions[n - 1]);
      StepLonger(cmp, states[n - 1], w, actions[n - 1]);
      v := NextView(states[n - 1], w, actions[n - 1]);
    }
  }

  /** While no node is published a search ends: it has its answer after as many loads as the levels had nodes when it began. */
  lemma SearchEnds<Key(!new)>(cmp: Comparator<Key>, states: seq<State<Key>>, actions: seq<Action<Key>>,
                              key: Key, r: nat, i: nat, n: nat, chains: seq<seq<nat>>)
    requires TotalPreorder(cmp) && Execution(cmp, states, actions) && i < n <= |actions|
    requires actions[i] == StartContains(r, key) && BusyOnly(actions, r, i + 1, n) && NoPublication(actions, i, n)
    requires |chains| == MAX_HEIGHT && AllChains(states[i].pool, chains)
    requires Loads(actions, r, i, n) >= Total(chains, 0)
    ensures r in states[n].readers && states[n].readers[r].Answering?
  {
    StepTaken(cmp, states, actions, i);
    hide Execution, BusyOnly, NoPublication, Good, AllChains, Total, Next, Enabled, Loads;
    var u, v := ChainsStay(cmp, states, actions, i, n);
    SameChains(cmp, states[i], u, chains);
    GoodChains(cmp, states[n], v);
    LoadsBounded(cmp, states, actions, key, r, i, n, chains);
  }

  lemma GoodChains<Key(!new)>(cmp: Comparator<Key>, s: State<Key>, v: View)
    requires Good(cmp, s, v)
    ensures |v.chains| == MAX_HEIGHT && AllChains(s.pool, v.chains)
  {
  }
}
