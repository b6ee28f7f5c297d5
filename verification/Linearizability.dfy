/**
 Main results about the interleaved skip list, for every execution.
 */
module Linearizability {
  import opened Atomic
  import opened Chains
  import opened Lists
  import opened LockFree
  import opened Ordering

  /** The invariant holds all along an execution. */
  lemma {:induction false} Reachable<Key(!new)>(cmp: Comparator<Key>, states: seq<State<Key>>, actions: seq<Action<Key>>, i: nat) returns (v: View)
    requires TotalPreorder(cmp) && Execution(cmp, states, actions) && i < |states|
    ensures Good(cmp, states[i], v)
    decreases i
  {
    if i == 0 {
      InitGood(cmp, states[0]);
      v := View(seq(MAX_HEIGHT, _ => [states[0].pool.head]), map[states[0].pool.head := MAX_HEIGHT]);
    } else {
      var u := Reachable(cmp, states, actions, i - 1);
      StepKeeps(cmp, states[i - 1], u, actions[i - 1]);
      v := NextView(states[i - 1], u, actions[i - 1]);
    }
  }

  // ---- no wild load --------------------------------------------------------------------

  ghost predicate Written<Key>(p: Pool<nat, Key>, x: nat, level: nat) {
    x in p.links && level < |p.links[x]| && p.links[x][level] != Unset
  }

  /** No reader loads a slot that was never written or that lies beyond the node's height; nor does the writer. */
  lemma LoadsAreWritten<Key(!new)>(cmp: Comparator<Key>, states: seq<State<Key>>, actions: seq<Action<Key>>, i: nat)
    requires TotalPreorder(cmp) && Execution(cmp, states, actions) && i < |states|
    ensures var s := states[i];
            && (forall r :: r in s.readers && s.readers[r].Searching? ==> Written(s.pool, s.readers[r].x, s.readers[r].level))
            && (s.writer.Called? ==> |s.prev| > 0 && Written(s.pool, s.prev[0], 0))
            && (s.writer.Walking? ==> Written(s.pool, s.writer.x, s.writer.level))
            && (s.writer.Filling? ==> s.writer.level < |s.prev| && Written(s.pool, s.prev[s.writer.level], s.writer.level))
  {
    var s := states[i];
    var v := Reachable(cmp, states, actions, i);
    var l := ListOf(s, v);
    forall r | r in s.readers && s.readers[r].Searching?
      ensures Written(s.pool, s.readers[r].x, s.readers[r].level)
    {
      SlotReady(cmp, l, s.readers[r].level, s.readers[r].x);
    }
    if s.writer.Called? {
      SlotReady(cmp, l, 0, s.prev[0]);
    } else if s.writer.Walking? {
      SlotReady(cmp, l, s.writer.level, s.writer.x);
    } else if s.writer.Filling? {
      SlotReady(cmp, l, s.writer.level, s.prev[s.writer.level]);
    }
  }

  // ---- what the levels look like ----------------------------------------------------------

  /**
   At every instant each level is an acyclic null-terminated chain, a level's nodes are on the
   level below, and level 0 is in key order.  While no insertion is under way, level i holds
   exactly the nodes of height above i.
   */
  lemma LevelsAreChains<Key(!new)>(cmp: Comparator<Key>, states: seq<State<Key>>, actions: seq<Action<Key>>, i: nat) returns (chains: seq<seq<nat>>)
    requires TotalPreorder(cmp) && Execution(cmp, states, actions) && i < |states|
    ensures |chains| == MAX_HEIGHT && AllChains(states[i].pool, chains)
    ensures forall h, k, x :: 0 <= h <= k < MAX_HEIGHT && x in chains[k] ==> x in chains[h]
    ensures Sorted(cmp, states[i].pool, chains[0])
    ensures states[i].writer.Idle? ==>
            forall h, x :: 0 <= h < MAX_HEIGHT ==> (x in chains[h] <==> h < states[i].pool.Height(x))
  {
    var v := Reachable(cmp, states, actions, i);
    chains := v.chains;
    var l := ListOf(states[i], v);
    forall h, k, x | 0 <= h <= k < MAX_HEIGHT && x in chains[k]
      ensures x in chains[h]
    {
      Descend(cmp, l, k, h, x);
    }
    if states[i].writer.Idle? {
      forall h, x | 0 <= h < MAX_HEIGHT
        ensures x in chains[h] <==> h < states[i].pool.Height(x)
      {
        if x in chains[h] {
          assert chains[h][IndexOf(chains[h], x)] in l.linked;
        }
      }
    }
  }

  // ---- the last load -----------------------------------------------------------------------

  /** The load after which a search answers returns the first node at or after its key, as level 0 stands at that load. */
  lemma LastLoadIsExact<Key(!new)>(cmp: Comparator<Key>, states: seq<State<Key>>, actions: seq<Action<Key>>, i: nat, c: seq<nat>)
    requires TotalPreorder(cmp) && Execution(cmp, states, actions) && i < |actions|
    requires actions[i].LoadNext? && states[i + 1].readers[actions[i].reader].Answering?
    requires IsChain(states[i].pool, 0, c)
    ensures var t := states[i + 1].readers[actions[i].reader];
            && t.result == FirstAtLeast(cmp, states[i].pool, c, t.key)
            && Sorted(cmp, states[i].pool, c)
  {
    hide WriterInv, TotalPreorder, Membership;
    var v := Reachable(cmp, states, actions, i);
    var l := ListOf(states[i], v);
    ChainUnique(states[i].pool, 0, c, v.chains[0]);
    var Searching(key, x, level) := states[i].readers[actions[i].reader];
    StopSplits(cmp, l, x, key);
  }

  /** Each load of a search ends it, goes down a level, or goes one node further along the level's chain. */
  lemma LoadsMakeProgress<Key(!new)>(cmp: Comparator<Key>, states: seq<State<Key>>, actions: seq<Action<Key>>, i: nat, chains: seq<seq<nat>>)
    requires TotalPreorder(cmp) && Execution(cmp, states, actions) && i < |actions| && actions[i].LoadNext?
    requires |chains| == MAX_HEIGHT && AllChains(states[i].pool, chains)
    ensures var t, u := states[i].readers[actions[i].reader], states[i + 1].readers[actions[i].reader];
            || u.Answering?
            || (u.Searching? && u.key == t.key && u.level + 1 == t.level && u.x == t.x)
            || (u.Searching? && u.key == t.key && u.level == t.level < MAX_HEIGHT
                && t.x in chains[t.level] && u.x in chains[t.level]
                && IndexOf(chains[t.level], u.x) == IndexOf(chains[t.level], t.x) + 1)
  {
    hide WriterInv, TotalPreorder, Membership;
    var v := Reachable(cmp, states, actions, i);
    var l := ListOf(states[i], v);
    var Searching(key, x, level) := states[i].readers[actions[i].reader];
    ChainUnique(states[i].pool, level, chains[level], v.chains[level]);
    Advance(cmp, l, level, x, key);
  }

  // ---- refinement of the atomic machine ------------------------------------------------------

  ghost function AbstractInsertion<Key>(w: Writer<Key>): Insertion<Key> {
    match w
    case Idle => NoInsertion
    case Filling(key, _, _, level) => if level == 0 then Pending(key) else Effective(key)
    case Publishing(key, _, _, level) => if level == 0 then Pending(key) else Effective(key)
    case Finished(key, _) => Effective(key)
    case _ => Pending(w.key)
  }

  ghost function AbstractLookup<Key>(cmp: Comparator<Key>, p: Pool<nat, Key>, t: Reader<Key>): Lookup<Key> {
    if t.Answering? then Decided(t.key, Answer(cmp, p, t.key, t.result)) else Asked(t.key)
  }

  ghost function AbstractLookups<Key>(cmp: Comparator<Key>, s: State<Key>): map<nat, Lookup<Key>> {
    map r | r in s.readers :: AbstractLookup(cmp, s.pool, s.readers[r])
  }

  ghost function Abs<Key(!new)>(cmp: Comparator<Key>, s: State<Key>, v: View): Abstract<Key>
    requires Good(cmp, s, v)
  {
    Abstract(multiset(Contents(cmp, ListOf(s, v))), AbstractInsertion(s.writer), AbstractLookups(cmp, s))
  }

  /** What a step shows: calls, returns, and the two instants at which operations take effect. */
  ghost function Label<Key>(cmp: Comparator<Key>, s: State<Key>, a: Action<Key>): Event<Key>
    requires Enabled(s, a)
  {
    match a
    case StartInsert(key) => CallInsert(key)
    case Publish => if s.writer.level == 0 then TakeEffect(s.writer.key) else Internal
    case EndInsert => ReturnInsert(s.writer.key)
    case StartContains(r, key) => CallContains(r, key)
    case LoadNext(r) =>
      var t := AfterLoad(cmp, s, s.readers[r]);
      if t.Answering? then Decide(r, Answer(cmp, s.pool, t.key, t.result)) else Internal
    case EndContains(r) => ReturnContains(r, Answer(cmp, s.pool, s.readers[r].key, s.readers[r].result))
    case _ => Internal
  }

  lemma MemberIsPresent<Key(!new)>(cmp: Comparator<Key>, s: seq<Key>, key: Key)
    ensures Member(cmp, s, key) <==> Present(cmp, multiset(s), key)
  {
    if Member(cmp, s, key) {
      var j :| 0 <= j < |s| && cmp(key, s[j]) == 0;
      assert s[j] in multiset(s);
    }
    if Present(cmp, multiset(s), key) {
      var k :| k in multiset(s) && cmp(key, k) == 0;
      assert k in s;
    }
  }

  /** The answers already given do not depend on what the writer does next. */
  lemma LookupsKept<Key(!new)>(cmp: Comparator<Key>, s: State<Key>, v: View, s': State<Key>)
    requires Good(cmp, s, v) && s'.readers == s.readers
    requires forall x :: x in s.pool.keys ==> x in s'.pool.keys && s'.pool.keys[x] == s.pool.keys[x]
    ensures AbstractLookups(cmp, s') == AbstractLookups(cmp, s)
  {
    hide Inv, WriterInv;
    forall r | r in s.readers
      ensures AbstractLookup(cmp, s'.pool, s.readers[r]) == AbstractLookup(cmp, s.pool, s.readers[r])
    {
      assert ReaderInv(cmp, ListOf(s, v), s.readers[r]);
    }
  }

  /** How the writer's position moves through an insertion, and what each step shows. */
  lemma InsertionMoves<Key(!new)>(cmp: Comparator<Key>, s: State<Key>, a: Action<Key>)
    requires Enabled(s, a) && !(a.StartContains? || a.LoadHeight? || a.LoadNext? || a.EndContains?)
    ensures Next(cmp, s, a).readers == s.readers
    ensures Label(cmp, s, a).TakeEffect? <==> a.Publish? && s.writer.level == 0
    ensures var i, j, e := AbstractInsertion(s.writer), AbstractInsertion(Next(cmp, s, a).writer), Label(cmp, s, a);
            || (e == Internal && j == i)
            || (e.CallInsert? && i == NoInsertion && j == Pending(e.key))
            || (e.TakeEffect? && i == Pending(e.key) && j == Effective(e.key) && e.key == s.writer.key)
            || (e.ReturnInsert? && i == Effective(e.key) && j == NoInsertion)
  {
    hide LinkLess, NodeLess, HeadBetween;
  }

  lemma WriterSimulates<Key(!new)>(cmp: Comparator<Key>, s: State<Key>, v: View, a: Action<Key>)
    requires Good(cmp, s, v) && Enabled(s, a) && Good(cmp, Next(cmp, s, a), NextView(s, v, a))
    requires !(a.StartContains? || a.LoadHeight? || a.LoadNext? || a.EndContains?)
    ensures Atomic.Step(cmp, Abs(cmp, s, v), Label(cmp, s, a), Abs(cmp, Next(cmp, s, a), NextView(s, v, a)))
  {
    hide Good, Contents, Next, NextView, Label, AbstractInsertion, AbstractLookups;
    InsertionMoves(cmp, s, a);
    KeysKept(cmp, s, v, a);
    LookupsKept(cmp, s, v, Next(cmp, s, a));
    WriterContents(cmp, s, v, a);
  }

  /** A key, once stored in a node, never changes. */
  lemma KeysKept<Key(!new)>(cmp: Comparator<Key>, s: State<Key>, v: View, a: Action<Key>)
    requires Good(cmp, s, v) && Enabled(s, a)
    ensures forall x :: x in s.pool.keys ==> x in Next(cmp, s, a).pool.keys && Next(cmp, s, a).pool.keys[x] == s.pool.keys[x]
  {
    hide TotalPreorder, Sorted, AllChains, Membership, WriterInv, ReaderInv;
  }

  /** Only the publication on level 0 changes the contents. */
  lemma WriterContents<Key(!new)>(cmp: Comparator<Key>, s: State<Key>, v: View, a: Action<Key>)
    requires Good(cmp, s, v) && Enabled(s, a) && Good(cmp, Next(cmp, s, a), NextView(s, v, a))
    ensures multiset(Contents(cmp, ListOf(Next(cmp, s, a), NextView(s, v, a)))) ==
            multiset(Contents(cmp, ListOf(s, v)))
            + if a.Publish? && s.writer.level == 0 then multiset{s.writer.key} else multiset{}
  {
    hide Inv, ReaderInv, Standing, Contents;
    var l, m := ListOf(s, v), ListOf(Next(cmp, s, a), NextView(s, v, a));
    if a.Publish? {
      PublishKeeps(cmp, s, v);
    } else if a.Allocate? {
      StartLinking(cmp, l, a.node, s.writer.key, s.writer.height) by { InPool(cmp, l, a.node); }
      assert m == AddNode(l, a.node, s.writer.key, s.writer.height);
    } else if a.Fill? {
      Shape(cmp, l);
      FillInv(cmp, l, s.writer.node, s.writer.level);
      assert m == Lists.Fill(l, s.writer.node, s.writer.level);
    } else {
      SameContents(cmp, l, m);
    }
  }

  lemma InPool<Key(!new)>(cmp: Comparator<Key>, l: List<nat, Key>, x: nat)
    requires Inv(cmp, l)
    ensures x in l.linked <==> x in l.pool.links
  {
  }

  /** What a step of a reader does to the lookups of the atomic machine, and what it leaves alone. */
  lemma LookupMoves<Key(!new)>(cmp: Comparator<Key>, s: State<Key>, v: View, a: Action<Key>)
    requires Enabled(s, a) && (a.StartContains? || a.LoadHeight? || a.LoadNext? || a.EndContains?)
    ensures ListOf(Next(cmp, s, a), NextView(s, v, a)) == ListOf(s, v) && Next(cmp, s, a).writer == s.writer
    ensures var before, after := AbstractLookups(cmp, s), AbstractLookups(cmp, Next(cmp, s, a));
            after == if a.StartContains? then before[a.reader := Asked(a.key)]
                     else if a.EndContains? then before - {a.reader}
                     else if a.LoadHeight? then before
                     else before[a.reader := AbstractLookup(cmp, s.pool, AfterLoad(cmp, s, s.readers[a.reader]))]
  {
    hide Answer, AfterLoad;
  }

  lemma ReaderSimulates<Key(!new)>(cmp: Comparator<Key>, s: State<Key>, v: View, a: Action<Key>)
    requires Good(cmp, s, v) && Enabled(s, a) && Good(cmp, Next(cmp, s, a), NextView(s, v, a))
    requires a.StartContains? || a.LoadHeight? || a.LoadNext? || a.EndContains?
    ensures Atomic.Step(cmp, Abs(cmp, s, v), Label(cmp, s, a), Abs(cmp, Next(cmp, s, a), NextView(s, v, a)))
  {
    hide Good, Contents, Next, NextView, Answer, AfterLoad, ListOf, AbstractInsertion;
    LookupMoves(cmp, s, v, a);
    if a.LoadNext? {
      DecidesRight(cmp, s, v, a.reader);
    }
  }

  lemma DecidesRight<Key(!new)>(cmp: Comparator<Key>, s: State<Key>, v: View, r: nat)
    requires Good(cmp, s, v) && r in s.readers && s.readers[r].Searching?
    ensures var t := AfterLoad(cmp, s, s.readers[r]);
            t.key == s.readers[r].key
            && (t.Answering? ==>
                 (Answer(cmp, s.pool, t.key, t.result) <==> Present(cmp, multiset(Contents(cmp, ListOf(s, v))), t.key)))
  {
    hide Inv, WriterInv, Contents;
    var l := ListOf(s, v);
    var Searching(key, x, level) := s.readers[r];
    if AfterLoad(cmp, s, s.readers[r]).Answering? {
      Shape(cmp, l);
      StopSplits(cmp, l, x, key);
      FoundIsMember(cmp, l, key);
      MemberIsPresent(cmp, Contents(cmp, l), key);
    }
  }

  lemma StepSimulates<Key(!new)>(cmp: Comparator<Key>, s: State<Key>, v: View, a: Action<Key>)
    requires Good(cmp, s, v) && Enabled(s, a)
    ensures Good(cmp, Next(cmp, s, a), NextView(s, v, a))
    ensures Atomic.Step(cmp, Abs(cmp, s, v), Label(cmp, s, a), Abs(cmp, Next(cmp, s, a), NextView(s, v, a)))
  {
    hide Good, Abs, Atomic.Step, Label, NextView;
    StepKeeps(cmp, s, v, a);
    if a.StartContains? || a.LoadHeight? || a.LoadNext? || a.EndContains? {
      ReaderSimulates(cmp, s, v, a);
    } else {
      WriterSimulates(cmp, s, v, a);
    }
  }

  /** The events shown along an execution. */
  ghost function Labels<Key>(cmp: Comparator<Key>, states: seq<State<Key>>, actions: seq<Action<Key>>): (e: seq<Event<Key>>)
    requires Execution(cmp, states, actions)
  {
    seq(|actions|, i requires 0 <= i < |actions| => Label(cmp, states[i], actions[i]))
  }

  /** Every execution is a run of the atomic machine with the same events. */
  lemma Linearizable<Key(!new)>(cmp: Comparator<Key>, states: seq<State<Key>>, actions: seq<Action<Key>>) returns (run: seq<Abstract<Key>>)
    requires TotalPreorder(cmp) && Execution(cmp, states, actions)
    ensures Atomic.Run(cmp, run, Labels(cmp, states, actions))
  {
    var v;
    run, v := LinearizablePrefix(cmp, states, actions, |actions|);
    assert Labels(cmp, states, actions)[..|actions|] == Labels(cmp, states, actions);
  }

  lemma {:induction false} LinearizablePrefix<Key(!new)>(cmp: Comparator<Key>, states: seq<State<Key>>, actions: seq<Action<Key>>, n: nat)
      returns (run: seq<Abstract<Key>>, v: View)
    requires TotalPreorder(cmp) && Execution(cmp, states, actions) && n <= |actions|
    ensures Good(cmp, states[n], v)
    ensures Atomic.Run(cmp, run, Labels(cmp, states, actions)[..n])
    ensures run[n] == Abs(cmp, states[n], v)
    decreases n
  {
    hide Good, Atomic.Step, Label, Enabled, Next, NextView, Abs;
    var labels := Labels(cmp, states, actions);
    if n == 0 {
      v := View(seq(MAX_HEIGHT, _ => [states[0].pool.head]), map[states[0].pool.head := MAX_HEIGHT]);
      InitAbs(cmp, states[0], v);
      run := [Abs(cmp, states[0], v)];
    } else {
      var shorter, u := LinearizablePrefix(cmp, states, actions, n - 1);
      StepSimulates(cmp, states[n - 1], u, actions[n - 1]);
      v := NextView(states[n - 1], u, actions[n - 1]);
      run := shorter + [Abs(cmp, states[n], v)];
      forall i | 0 <= i < n
        ensures Atomic.Step(cmp, run[i], labels[..n][i], run[i + 1])
      {
        if i < n - 1 {
          assert Atomic.Step(cmp, shorter[i], labels[..n - 1][i], shorter[i + 1]);
        }
      }
    }
  }

  lemma InitAbs<Key(!new)>(cmp: Comparator<Key>, s: State<Key>, v: View)
    requires TotalPreorder(cmp) && Init(s)
    requires v == View(seq(MAX_HEIGHT, _ => [s.pool.head]), map[s.pool.head := MAX_HEIGHT])
    ensures Good(cmp, s, v) && Abs(cmp, s, v) == Abstract(multiset{}, NoInsertion, map[])
  {
    InitGood(cmp, s);
    EmptyInv(cmp, ListOf(s, v));
  }

  // ---- what callers see ------------------------------------------------------------------

  ghost predicate BusyOnly<Key(!new)>(actions: seq<Action<Key>>, r: nat, i: nat, j: nat)
    requires i <= j <= |actions|
  {
    forall m :: i <= m < j ==> actions[m] != EndContains(r) && !(actions[m].StartContains? && actions[m].reader == r)
  }

  /** A lookup started after the insertion of an equal key ended answers true, in every interleaving. */
  lemma CompletedInsertsAreSeen<Key(!new)>(cmp: Comparator<Key>, states: seq<State<Key>>, actions: seq<Action<Key>>,
                                           key: Key, r: nat, h: nat, i: nat, j: nat)
    requires TotalPreorder(cmp) && Execution(cmp, states, actions) && h < i < j < |actions|
    requires actions[h] == EndInsert && cmp(key, states[h].writer.key) == 0
    requires actions[i] == StartContains(r, key) && BusyOnly(actions, r, i + 1, j) && actions[j] == EndContains(r)
    ensures Answer(cmp, states[j].pool, states[j].readers[r].key, states[j].readers[r].result)
  {
    hide Good, TotalPreorder, Atomic.Run, Answer;
    var run := Linearizable(cmp, states, actions);
    var e := Labels(cmp, states, actions);
    assert Enabled(states[h], actions[h]) && Enabled(states[i], actions[i]) && Enabled(states[j], actions[j]);
    StaysQuiet(cmp, states, actions, r, i + 1, j);
    InsertedIsFound(cmp, run, e, states[h].writer.key, key, r,
                    Answer(cmp, states[j].pool, states[j].readers[r].key, states[j].readers[r].result), h, i, j);
  }

  /** A lookup that answers true was preceded by the start of an insertion of an equal key. */
  lemma NothingInvented<Key(!new)>(cmp: Comparator<Key>, states: seq<State<Key>>, actions: seq<Action<Key>>,
                                   key: Key, r: nat, i: nat, j: nat)
    requires TotalPreorder(cmp) && Execution(cmp, states, actions) && i < j < |actions|
    requires actions[i] == StartContains(r, key) && BusyOnly(actions, r, i + 1, j) && actions[j] == EndContains(r)
    requires r in states[j].readers && states[j].readers[r].Answering?
    requires Answer(cmp, states[j].pool, states[j].readers[r].key, states[j].readers[r].result)
    ensures exists h, k :: 0 <= h < j && actions[h] == StartInsert(k) && cmp(key, k) == 0
  {
    hide Good, TotalPreorder, Atomic.Run, Answer;
    var run := Linearizable(cmp, states, actions);
    var e := Labels(cmp, states, actions);
    assert Enabled(states[i], actions[i]) && Enabled(states[j], actions[j]);
    StaysQuiet(cmp, states, actions, r, i + 1, j);
    FoundWasInserted(cmp, run, e, key, r, i, j);
    var h, k :| 0 <= h < j && e[h] == CallInsert(k) && cmp(key, k) == 0;
    assert e[h] == Label(cmp, states[h], actions[h]);
    assert actions[h] == StartInsert(k);
  }

  /** Once a lookup answered true, every lookup of an equal key that starts later answers true. */
  lemma FoundIsSeenAgain<Key(!new)>(cmp: Comparator<Key>, states: seq<State<Key>>, actions: seq<Action<Key>>,
                                    key: Key, r: nat, i: nat, j: nat, key': Key, q: nat, m: nat, n: nat)
    requires TotalPreorder(cmp) && cmp(key', key) == 0
    requires Execution(cmp, states, actions) && i < j < m < n < |actions|
    requires actions[i] == StartContains(r, key) && BusyOnly(actions, r, i + 1, j) && actions[j] == EndContains(r)
    requires r in states[j].readers && states[j].readers[r].Answering?
    requires Answer(cmp, states[j].pool, states[j].readers[r].key, states[j].readers[r].result)
    requires actions[m] == StartContains(q, key') && BusyOnly(actions, q, m + 1, n) && actions[n] == EndContains(q)
    ensures Answer(cmp, states[n].pool, states[n].readers[q].key, states[n].readers[q].result)
  {
    hide Good, TotalPreorder, Atomic.Run, Answer;
    var run := Linearizable(cmp, states, actions);
    var e := Labels(cmp, states, actions);
    assert Enabled(states[i], actions[i]) && Enabled(states[j], actions[j]);
    assert Enabled(states[m], actions[m]) && Enabled(states[n], actions[n]);
    StaysQuiet(cmp, states, actions, r, i + 1, j);
    StaysQuiet(cmp, states, actions, q, m + 1, n);
    FoundStaysFound(cmp, run, e, key, r, i, j, key', q,
                    Answer(cmp, states[n].pool, states[n].readers[q].key, states[n].readers[q].result), m, n);
  }

  lemma StaysQuiet<Key(!new)>(cmp: Comparator<Key>, states: seq<State<Key>>, actions: seq<Action<Key>>, r: nat, i: nat, j: nat)
    requires Execution(cmp, states, actions) && i <= j <= |actions| && BusyOnly(actions, r, i, j)
    ensures Quiet(Labels(cmp, states, actions), r, i, j)
  {
    var e := Labels(cmp, states, actions);
    forall m | i <= m < j
      ensures !(e[m].CallContains? && e[m].reader == r) && !(e[m].ReturnContains? && e[m].reader == r)
    {
      assert e[m] == Label(cmp, states[m], actions[m]);
    }
  }
}
