/**
 What one insertion of the interleaved machine does from its call to its return, whatever the
 readers do in between: exactly what the sequential insertion does.
 */
module Insertions {
  import opened Chains
  import opened LevelOrder
  import opened Linearizability
  import opened Lists
  import opened LockFree
  import opened Ordering

  // ---- heights ----------------------------------------------------------------------------

  ghost predicate NoRaise<Key(!new)>(actions: seq<Action<Key>>, i: nat, j: nat)
    requires i <= j <= |actions|
  {
    forall m :: i <= m < j ==> !actions[m].Raise?
  }

  /** The height that the writer carries is the one drawn last. */
  lemma {:induction false} CarriesDrawn<Key(!new)>(cmp: Comparator<Key>, states: seq<State<Key>>, actions: seq<Action<Key>>,
                                                  i: nat, j: nat, h: nat)
    requires Execution(cmp, states, actions) && i < j <= |actions| && actions[i] == LockFree.Raise(h) && NoRaise(actions, i + 1, j)
    ensures |states| == |actions| + 1 && (states[j].writer.Raised? ==> states[j].writer.height == h)
    decreases j
  {
    hide *;
    StepOf(cmp, states, actions, j - 1);
    RaisedStep(cmp, states[j - 1], actions[j - 1]);
    if j > i + 1 {
      FewerRaises(actions, i + 1, j);
      CarriesDrawn(cmp, states, actions, i, j - 1, h);
    }
  }

  lemma FewerRaises<Key(!new)>(actions: seq<Action<Key>>, i: nat, j: nat)
    requires i < j <= |actions| && NoRaise(actions, i, j)
    ensures NoRaise(actions, i, j - 1) && !actions[j - 1].Raise?
  {
  }

  lemma StepOf<Key(!new)>(cmp: Comparator<Key>, states: seq<State<Key>>, actions: seq<Action<Key>>, k: nat)
    requires Execution(cmp, states, actions) && k < |actions|
    ensures |states| == |actions| + 1
    ensures Enabled(states[k], actions[k]) && states[k + 1] == Next(cmp, states[k], actions[k])
  {
  }

  lemma RaisedStep<Key(!new)>(cmp: Comparator<Key>, s: State<Key>, a: Action<Key>)
    requires Enabled(s, a)
    ensures var t := Next(cmp, s, a).writer;
            && (a.Raise? ==> t.Raised? && t.height == a.height)
            && (!a.Raise? && t.Raised? ==> s.writer == t)
  {
    hide LinkLess, NodeLess, AfterLoad;
  }

  /** No step changes the height of a node. */
  lemma HeightStays<Key(!new)>(cmp: Comparator<Key>, s: State<Key>, a: Action<Key>, y: nat)
    requires Enabled(s, a) && y in s.pool.links
    ensures y in Next(cmp, s, a).pool.links && Next(cmp, s, a).pool.Height(y) == s.pool.Height(y)
  {
    hide LinkLess, NodeLess, AfterLoad;
  }

  lemma AllocatedHeight<Key(!new)>(cmp: Comparator<Key>, s: State<Key>, y: nat)
    requires Enabled(s, Allocate(y))
    ensures y in Next(cmp, s, Allocate(y)).pool.links && Next(cmp, s, Allocate(y)).pool.Height(y) == s.writer.height
  {
  }

  /** In every execution a node has the height drawn last before it was allocated, ever after. */
  lemma {:induction false} HeightIsDrawn<Key(!new)>(cmp: Comparator<Key>, states: seq<State<Key>>, actions: seq<Action<Key>>,
                                                   i: nat, h: nat, j: nat, y: nat, k: nat)
    requires Execution(cmp, states, actions) && i < j < k <= |actions|
    requires actions[i] == LockFree.Raise(h) && NoRaise(actions, i + 1, j) && actions[j] == Allocate(y)
    ensures |states| == |actions| + 1 && y in states[k].pool.links && states[k].pool.Height(y) == h
    decreases k
  {
    hide *;
    StepOf(cmp, states, actions, k - 1);
    if k == j + 1 {
      CarriesDrawn(cmp, states, actions, i, j, h);
      AllocatedHeight(cmp, states[j], y);
      AllocatesRaised(states[j], y);
    } else {
      HeightIsDrawn(cmp, states, actions, i, h, j, y, k - 1);
      HeightStays(cmp, states[k - 1], actions[k - 1], y);
    }
  }

  lemma AllocatesRaised<Key(!new)>(s: State<Key>, y: nat)
    requires Enabled(s, Allocate(y))
    ensures s.writer.Raised?
  {
  }

  /** While no insertion is under way a node is on exactly the levels below the height drawn for it. */
  lemma LinkedBelowDrawn<Key(!new)>(cmp: Comparator<Key>, states: seq<State<Key>>, actions: seq<Action<Key>>,
                                    i: nat, h: nat, j: nat, y: nat, k: nat, level: nat, c: seq<nat>)
    requires TotalPreorder(cmp) && Execution(cmp, states, actions) && i < j < k <= |actions|
    requires actions[i] == LockFree.Raise(h) && NoRaise(actions, i + 1, j) && actions[j] == Allocate(y)
    requires |states| == |actions| + 1 && states[k].writer.Idle? && level < 12 && IsChain(states[k].pool, level, c)
    ensures y in c <==> level < h
  {
    hide Execution, TotalPreorder, AllChains, IsChain, Sorted, NoRaise;
    HeightIsDrawn(cmp, states, actions, i, h, j, y, k);
    var chains := LevelsAreChains(cmp, states, actions, k);
    ChainOf(states[k].pool, chains, level);
    ChainUnique(states[k].pool, level, c, chains[level]);
  }

  lemma ChainOf<Key>(p: Pool<nat, Key>, chains: seq<seq<nat>>, level: nat)
    requires AllChains(p, chains) && level < |chains|
    ensures IsChain(p, level, chains[level])
  {
  }

  /** The largest height drawn in the first n steps, at least 1. */
  ghost function Tallest<Key>(actions: seq<Action<Key>>, n: nat): nat
    requires n <= |actions|
  {
    if n == 0 then 1
    else
      var t := Tallest(actions, n - 1);
      if actions[n - 1].Raise? && actions[n - 1].height > t then actions[n - 1].height else t
  }

  lemma {:induction false} HeightIsTallest<Key(!new)>(cmp: Comparator<Key>, states: seq<State<Key>>, actions: seq<Action<Key>>, n: nat)
    requires Execution(cmp, states, actions) && n <= |actions|
    ensures |states| == |actions| + 1 && states[n].maxHeight == Tallest(actions, n)
    decreases n
  {
    if n > 0 {
      hide Execution, Next, Enabled;
      StepOf(cmp, states, actions, n - 1);
      HeightIsTallest(cmp, states, actions, n - 1);
      MaxHeightStep(cmp, states[n - 1], actions[n - 1]);
    }
  }

  lemma MaxHeightStep<Key(!new)>(cmp: Comparator<Key>, s: State<Key>, a: Action<Key>)
    requires Enabled(s, a)
    ensures Next(cmp, s, a).maxHeight == if a.Raise? && a.height > s.maxHeight then a.height else s.maxHeight
  {
    hide LinkLess, NodeLess, AfterLoad;
  }

  /** A lookup starts at the head, on the top level of the tallest node drawn so far. */
  lemma StartsOnTop<Key(!new)>(cmp: Comparator<Key>, states: seq<State<Key>>, actions: seq<Action<Key>>, n: nat)
    requires Execution(cmp, states, actions) && n < |actions| && actions[n].LoadHeight?
    ensures |states| == |actions| + 1 && actions[n].reader in states[n + 1].readers
    ensures var t := states[n + 1].readers[actions[n].reader];
            t.Searching? && t.x == states[n].pool.head && t.level + 1 == Tallest(actions, n)
  {
    HeightIsTallest(cmp, states, actions, n);
    AtLeastOne(actions, n);
  }

  lemma {:induction false} AtLeastOne<Key>(actions: seq<Action<Key>>, n: nat)
    requires n <= |actions|
    ensures Tallest(actions, n) >= 1
  {
    if n > 0 {
      AtLeastOne(actions, n - 1);
    }
  }

  // ---- the phases of an insertion -------------------------------------------------------------

  /** The gap behind the remembered node is where `key` belongs. */
  ghost predicate HintFits<Key>(cmp: Comparator<Key>, l: List<nat, Key>, key: Key)
    requires |l.prev| > 0
  {
    && !LinkLess(cmp, l.pool, l.pool.Slot(l.prev[0], 0), key)
    && (l.prev[0] == l.pool.head || NodeLess(cmp, l.pool, l.prev[0], key))
  }

  /** The search left the remembered nodes alone, or recorded where it left every level. */
  ghost predicate SearchDone<Key>(cmp: Comparator<Key>, l: List<nat, Key>, p: seq<nat>, key: Key)
    requires Structure(l)
  {
    if HintFits(cmp, l, key) then p == l.prev else Recorded(cmp, l, 0, l.prev, p, key)
  }

  /** The list when its new node is about to be linked. */
  ghost function Ready<Key>(l: List<nat, Key>, p: seq<nat>, h: nat): List<nat, Key> {
    l.(prev := p, maxHeight := if h > l.maxHeight then h else l.maxHeight)
  }

  /** `m` is the list with the node linked on the levels below `level`. */
  ghost predicate PartlyLinked<Key(!new)>(cmp: Comparator<Key>, l: List<nat, Key>, m: List<nat, Key>, key: Key, h: nat, y: nat, level: nat)
    requires Structure(l)
  {
    && SearchDone(cmp, l, m.prev, key) && 1 <= h <= MAX_HEIGHT
    && Inv(cmp, Ready(l, m.prev, h)) && Gap(cmp, Ready(l, m.prev, h), key)
    && Linking(Ready(l, m.prev, h), m, y, key, h, level)
  }

  /** How far the insertion of `key` into the list `l` has come. */
  ghost predicate Phase<Key(!new)>(cmp: Comparator<Key>, l: List<nat, Key>, key: Key, m: List<nat, Key>, w: Writer<Key>) {
    Structure(l) &&
    match w
    case Idle => false
    case Called(k) => k == key && m == l
    case Walking(k, x, level) =>
      k == key && !HintFits(cmp, l, key) && level < l.maxHeight && m == l.(prev := m.prev) && Recorded(cmp, l, level + 1, l.prev, m.prev, key)
    case Found(k) => k == key && m == l.(prev := m.prev) && SearchDone(cmp, l, m.prev, key)
    case Raised(k, h) => k == key && m == Ready(l, m.prev, h) && SearchDone(cmp, l, m.prev, key) && 1 <= h <= MAX_HEIGHT
    case Filling(k, h, y, level) => k == key && PartlyLinked(cmp, l, m, key, h, y, level)
    case Publishing(k, h, y, level) => k == key && PartlyLinked(cmp, l, m, key, h, y, level)
    case Finished(k, y) => k == key && PartlyLinked(cmp, l, m, key, m.pool.Height(y), y, m.pool.Height(y))
  }

  lemma HintPhase<Key(!new)>(cmp: Comparator<Key>, l: List<nat, Key>, key: Key, s: State<Key>, v: View)
    requires Inv(cmp, l) && s.writer.Called? && Phase(cmp, l, key, ListOf(s, v), s.writer)
    ensures Phase(cmp, l, key, ListOf(TryHintNext(cmp, s), v), TryHintNext(cmp, s).writer)
  {
    hide Inv, LinkLess, NodeLess;
    Shape(cmp, l);
  }

  lemma WalkPhase<Key(!new)>(cmp: Comparator<Key>, l: List<nat, Key>, key: Key, s: State<Key>, v: View)
    requires Inv(cmp, l) && Good(cmp, s, v) && s.writer.Walking? && Phase(cmp, l, key, ListOf(s, v), s.writer)
    ensures Phase(cmp, l, key, ListOf(WalkNext(cmp, s), v), WalkNext(cmp, s).writer)
  {
    hide Inv, Recorded, HintFits, NodeLess, ReaderInv, Settled;
    Shape(cmp, l);
    var Walking(k, x, level) := s.writer;
    WalkRecords(cmp, l, s.prev, key, x, level);
  }

  lemma WalkRecords<Key(!new)>(cmp: Comparator<Key>, l: List<nat, Key>, p: seq<nat>, key: Key, x: nat, level: nat)
    requires Structure(l) && level < l.maxHeight && Recorded(cmp, l, level + 1, l.prev, p, key)
    requires Standing(cmp, l, level, x, key)
    ensures !LinkLess(cmp, l.pool, l.pool.Slot(x, level), key) ==> |p| == MAX_HEIGHT && Recorded(cmp, l, level, l.prev, p[level := x], key)
  {
    hide Standing, LinkLess;
    if !LinkLess(cmp, l.pool, l.pool.Slot(x, level), key) {
      RecordLevel(cmp, l, level, l.prev, p, x, key);
    }
  }

  lemma RaisePhase<Key(!new)>(cmp: Comparator<Key>, l: List<nat, Key>, key: Key, s: State<Key>, v: View, h: nat)
    requires Inv(cmp, l) && Good(cmp, s, v) && s.writer.Found? && 1 <= h <= MAX_HEIGHT && Phase(cmp, l, key, ListOf(s, v), s.writer)
    ensures Phase(cmp, l, key, ListOf(RaiseNext(s, h), v), RaiseNext(s, h).writer)
  {
    hide Good, Inv, SearchDone;
    Shape(cmp, l);
    RaiseKeeps(cmp, s, v, h);
  }

  lemma AllocatePhase<Key(!new)>(cmp: Comparator<Key>, l: List<nat, Key>, key: Key, s: State<Key>, v: View, y: nat)
    requires Inv(cmp, l) && Good(cmp, s, v) && Enabled(s, Allocate(y)) && Phase(cmp, l, key, ListOf(s, v), s.writer)
    ensures var t := Next(cmp, s, Allocate(y));
            Phase(cmp, l, key, ListOf(t, NextView(s, v, Allocate(y))), t.writer)
  {
    hide Inv, SearchDone, Gap, Linking, ReaderInv, Settled;
    Shape(cmp, l);
    var m := ListOf(s, v);
    InPool(cmp, m, y);
    StartLinking(cmp, m, y, key, s.writer.height);
    assert ListOf(Next(cmp, s, Allocate(y)), NextView(s, v, Allocate(y))) == AddNode(m, y, key, s.writer.height);
  }

  lemma FillPhase<Key(!new)>(cmp: Comparator<Key>, l: List<nat, Key>, key: Key, s: State<Key>, v: View)
    requires Inv(cmp, l) && Good(cmp, s, v) && s.writer.Filling? && Phase(cmp, l, key, ListOf(s, v), s.writer)
    ensures Phase(cmp, l, key, ListOf(FillNext(s), v), FillNext(s).writer)
  {
    hide Inv, SearchDone, Gap, ReaderInv, Linking, Settled;
    Shape(cmp, l);
    var Filling(k, h, y, level) := s.writer;
    var m := ListOf(s, v);
    Shape(cmp, m);
    FillLinking(cmp, Ready(l, m.prev, h), m, y, key, h, level);
    assert ListOf(FillNext(s), v) == Lists.Fill(m, y, level);
  }

  lemma FillLinking<Key(!new)>(cmp: Comparator<Key>, l: List<nat, Key>, m: List<nat, Key>, y: nat, key: Key, h: nat, level: nat)
    requires Inv(cmp, l) && Linking(l, m, y, key, h, level) && level < MAX_HEIGHT
    ensures level < |m.prev| && Linking(l, Lists.Fill(m, y, level), y, key, h, level)
  {
    hide TotalPreorder, AllChains, Membership, Sorted;
    forall z
      ensures Lists.Fill(m, y, level).pool.Height(z) == m.pool.Height(z)
    {
      StoreHeight(m.pool, y, level, m.pool.Slot(m.prev[level], level), z);
    }
  }

  lemma AttachPartly<Key(!new)>(cmp: Comparator<Key>, l: List<nat, Key>, m: List<nat, Key>, key: Key, h: nat, y: nat, level: nat)
    requires Structure(l) && PartlyLinked(cmp, l, m, key, h, y, level) && level < h
    ensures level < |m.prev| && level < |m.chains| && m.prev[level] in m.chains[level]
    ensures PartlyLinked(cmp, l, Attach(m, y, level), key, h, y, level + 1) && Attach(m, y, level).pool.Height(y) == h
  {
    hide Inv, SearchDone, Gap, Linking;
    LinkingShape(cmp, Ready(l, m.prev, h), m, y, key, h, level);
    AttachLinking(cmp, Ready(l, m.prev, h), m, y, key, h, level);
  }

  lemma LinkingShape<Key(!new)>(cmp: Comparator<Key>, l: List<nat, Key>, m: List<nat, Key>, y: nat, key: Key, h: nat, level: nat)
    requires Inv(cmp, l) && Linking(l, m, y, key, h, level)
    ensures |m.prev| == |m.chains| == MAX_HEIGHT
  {
  }

  lemma PublishIsAttach<Key(!new)>(cmp: Comparator<Key>, s: State<Key>, v: View)
    requires Enabled(s, Publish) && Good(cmp, s, v)
    ensures s.writer.Publishing? && s.writer.level < s.writer.height
    ensures s.writer.level < |s.prev| && s.writer.level < |v.chains| && s.prev[s.writer.level] in v.chains[s.writer.level]
    ensures ListOf(Next(cmp, s, Publish), NextView(s, v, Publish)) == Attach(ListOf(s, v), s.writer.node, s.writer.level)
  {
    hide Inv, ReaderInv, Gap;
    Shape(cmp, ListOf(s, v));
  }

  lemma AttachLinking<Key(!new)>(cmp: Comparator<Key>, l: List<nat, Key>, m: List<nat, Key>, y: nat, key: Key, h: nat, level: nat)
    requires Inv(cmp, l) && Linking(l, m, y, key, h, level) && level < MAX_HEIGHT
    ensures level < |m.prev| && m.prev[level] in m.chains[level]
    ensures Linking(l, Attach(m, y, level), y, key, h, level + 1) && Attach(m, y, level).pool.Height(y) == h
  {
    hide TotalPreorder, AllChains, Membership, Sorted;
    forall z
      ensures Attach(m, y, level).pool.Height(z) == m.pool.Height(z)
    {
      StoreHeight(m.pool, m.prev[level], level, To(y), z);
    }
  }

  lemma PublishWriter<Key>(s: State<Key>)
    requires s.writer.Publishing?
    ensures var Publishing(k, h, y, level) := s.writer;
            PublishNext(s).writer == if level + 1 < h then Filling(k, h, y, level + 1) else Finished(k, y)
  {
  }

  lemma ViewStays<Key(!new)>(s: State<Key>, v: View, a: Action<Key>)
    requires Enabled(s, a)
    ensures !a.Allocate? && !a.Publish? ==> NextView(s, v, a) == v
  {
  }

  /** Every step but the return keeps the insertion in its phases. */
  lemma PhaseStep<Key(!new)>(cmp: Comparator<Key>, l: List<nat, Key>, key: Key, s: State<Key>, v: View, a: Action<Key>)
    requires Inv(cmp, l) && Good(cmp, s, v) && Enabled(s, a) && a != EndInsert && Phase(cmp, l, key, ListOf(s, v), s.writer)
    ensures Phase(cmp, l, key, ListOf(Next(cmp, s, a), NextView(s, v, a)), Next(cmp, s, a).writer)
  {
    hide Inv, Good, Attach, NextView, TryHintNext, WalkNext, RaiseNext, FillNext, PublishNext, AfterLoad, PartlyLinked, SearchDone, Recorded, HintFits;
    Shape(cmp, l);
    ViewStays(s, v, a);
    match a
    case StartInsert(_) =>
    case TryHint => HintPhase(cmp, l, key, s, v);
    case Walk => WalkPhase(cmp, l, key, s, v);
    case Raise(h) => RaisePhase(cmp, l, key, s, v, h);
    case Allocate(y) => AllocatePhase(cmp, l, key, s, v, y);
    case Fill => FillPhase(cmp, l, key, s, v);
    case Publish =>
      PublishIsAttach(cmp, s, v);
      AttachPartly(cmp, l, ListOf(s, v), key, s.writer.height, s.writer.node, s.writer.level);
      PublishWriter(s);
    case StartContains(_, _) =>
    case LoadHeight(_) =>
    case LoadNext(_) =>
    case EndContains(_) =>
  }

  ghost predicate NoReturn<Key(!new)>(actions: seq<Action<Key>>, i: nat, j: nat)
    requires i <= j <= |actions|
  {
    forall m :: i <= m < j ==> actions[m] != EndInsert
  }

  lemma FewerReturns<Key(!new)>(actions: seq<Action<Key>>, i: nat, j: nat)
    requires i < j <= |actions| && NoReturn(actions, i, j)
    ensures NoReturn(actions, i, j - 1) && actions[j - 1] != EndInsert
  {
  }

  /** Along every execution an insertion that was called and has not returned is in its phases. */
  lemma {:induction false} InPhase<Key(!new)>(cmp: Comparator<Key>, states: seq<State<Key>>, actions: seq<Action<Key>>,
                                             a: nat, key: Key, n: nat) returns (u: View, v: View)
    requires TotalPreorder(cmp) && Execution(cmp, states, actions) && a < n <= |actions|
    requires actions[a] == StartInsert(key) && NoReturn(actions, a + 1, n)
    ensures |states| == |actions| + 1 && Good(cmp, states[a], u) && Good(cmp, states[n], v)
    ensures Inv(cmp, ListOf(states[a], u))
    ensures Phase(cmp, ListOf(states[a], u), key, ListOf(states[n], v), states[n].writer)
    decreases n
  {
    hide *;
    StepOf(cmp, states, actions, n - 1);
    if n == a + 1 {
      u := Reachable(cmp, states, actions, a);
      GoodInv(cmp, states[a], u);
      StepKeeps(cmp, states[a], u, actions[a]);
      v := NextView(states[a], u, actions[a]);
      JustCalled(cmp, states[a], u, key);
    } else {
      FewerReturns(actions, a + 1, n);
      var w;
      u, w := InPhase(cmp, states, actions, a, key, n - 1);
      StepKeeps(cmp, states[n - 1], w, actions[n - 1]);
      v := NextView(states[n - 1], w, actions[n - 1]);
      PhaseStep(cmp, ListOf(states[a], u), key, states[n - 1], w, actions[n - 1]);
    }
  }

  lemma GoodInv<Key(!new)>(cmp: Comparator<Key>, s: State<Key>, v: View)
    requires Good(cmp, s, v)
    ensures Inv(cmp, ListOf(s, v))
  {
  }

  lemma JustCalled<Key(!new)>(cmp: Comparator<Key>, s: State<Key>, v: View, key: Key)
    requires Good(cmp, s, v) && Enabled(s, StartInsert(key))
    ensures Phase(cmp, ListOf(s, v), key, ListOf(Next(cmp, s, StartInsert(key)), NextView(s, v, StartInsert(key))),
                  Next(cmp, s, StartInsert(key)).writer)
  {
    hide WriterInv, ReaderInv;
  }

  // ---- main results ------------------------------------------------------------------------------

  /** `m` is `l` with a node of height h for `key` linked behind the predecessors p and remembered. */
  ghost predicate Effect<Key(!new)>(cmp: Comparator<Key>, l: List<nat, Key>, m: List<nat, Key>, key: Key, p: seq<nat>, h: nat, y: nat) {
    && Structure(l) && SearchDone(cmp, l, p, key)
    && Inv(cmp, Ready(l, p, h)) && Gap(cmp, Ready(l, p, h), key)
    && Inserted(Ready(l, p, h), m, y, key, h)
    && m.maxHeight == Ready(l, p, h).maxHeight && m.pool.Height(y) == h
  }

  lemma ReturnEffect<Key(!new)>(cmp: Comparator<Key>, l: List<nat, Key>, m: List<nat, Key>, key: Key, h: nat, y: nat)
    requires Structure(l) && Inv(cmp, m) && PartlyLinked(cmp, l, m, key, h, y, h) && m.pool.Height(y) == h
    ensures |m.prev| > 0 && Effect(cmp, l, m.(prev := m.prev[0 := y]), key, m.prev, h, y)
  {
    hide Inv, SearchDone, Gap, Linking, Inserted;
    Shape(cmp, m);
    Shape(cmp, Ready(l, m.prev, h));
    EndLinking(cmp, Ready(l, m.prev, h), m, y, key, h);
  }

  lemma FinishedPhase<Key(!new)>(cmp: Comparator<Key>, l: List<nat, Key>, key: Key, m: List<nat, Key>, w: Writer<Key>)
    requires w.Finished? && Phase(cmp, l, key, m, w)
    ensures Structure(l) && PartlyLinked(cmp, l, m, key, m.pool.Height(w.node), w.node, m.pool.Height(w.node))
  {
    hide PartlyLinked;
  }

  lemma ReturnIs<Key(!new)>(cmp: Comparator<Key>, s: State<Key>, v: View)
    requires Enabled(s, EndInsert) && |s.prev| > 0
    ensures s.writer.Finished? && NextView(s, v, EndInsert) == v
    ensures ListOf(Next(cmp, s, EndInsert), v) == ListOf(s, v).(prev := s.prev[0 := s.writer.node])
    ensures ListOf(s, v).prev == s.prev && ListOf(s, v).pool == s.pool
  {
  }

  /**
   In every execution, an insertion from its call to its return: the search keeps the remembered
   nodes if the hint fits and otherwise records every level, and the node is linked behind them on
   exactly the levels below its height.
   */
  lemma InsertionEffect<Key(!new)>(cmp: Comparator<Key>, states: seq<State<Key>>, actions: seq<Action<Key>>,
                                   a: nat, key: Key, b: nat) returns (u: View, v: View, p: seq<nat>, h: nat, y: nat)
    requires TotalPreorder(cmp) && Execution(cmp, states, actions) && a < b < |actions|
    requires actions[a] == StartInsert(key) && NoReturn(actions, a + 1, b) && actions[b] == EndInsert
    ensures |states| == |actions| + 1 && Good(cmp, states[a], u) && Good(cmp, states[b + 1], v)
    ensures Effect(cmp, ListOf(states[a], u), ListOf(states[b + 1], v), key, p, h, y)
  {
    hide *;
    StepOf(cmp, states, actions, b);
    var w;
    u, w := InPhase(cmp, states, actions, a, key, b);
    var m := ListOf(states[b], w);
    Returning(states[b]);
    p, y := m.prev, states[b].writer.node;
    h := m.pool.Height(y);
    FinishedPhase(cmp, ListOf(states[a], u), key, m, states[b].writer);
    GoodInv(cmp, states[b], w);
    ReturnEffect(cmp, ListOf(states[a], u), m, key, h, y);
    StepKeeps(cmp, states[b], w, EndInsert);
    SamePrev(states[b], w);
    ReturnIs(cmp, states[b], w);
    v := w;
  }

  lemma Returning<Key(!new)>(s: State<Key>)
    requires Enabled(s, EndInsert)
    ensures s.writer.Finished?
  {
  }

  lemma SamePrev<Key(!new)>(s: State<Key>, v: View)
    ensures ListOf(s, v).prev == s.prev
  {
  }

  /** So the upper levels lose their order exactly as in the sequential list. */
  lemma EffectOrder<Key(!new)>(cmp: Comparator<Key>, l: List<nat, Key>, m: List<nat, Key>, key: Key, p: seq<nat>, h: nat, y: nat,
                               dirty: set<nat>, broken: set<nat>)
    requires Inv(cmp, l) && Inv(cmp, m) && Effect(cmp, l, m, key, p, h, y) && OrderInv(cmp, l, dirty, broken)
    ensures var reused := if HintFits(cmp, l, key) then dirty else {};
            OrderInv(cmp, m, reused + Below(h), broken + reused * Below(h))
  {
    hide Inv, OrderInv, Gap, HintFits, Recorded, Inserted, Below;
    Shape(cmp, l);
    var reused := if HintFits(cmp, l, key) then dirty else {};
    if HintFits(cmp, l, key) {
      assert l.(prev := p) == l;
    } else {
      Searched(cmp, l, p, key, dirty, broken);
    }
    RaiseOrder(cmp, l.(prev := p), Ready(l, p, h).maxHeight, reused, broken);
    assert l.(prev := p).(maxHeight := Ready(l, p, h).maxHeight) == Ready(l, p, h);
    InsertOrder(cmp, Ready(l, p, h), m, y, key, h, reused, broken);
  }
}
