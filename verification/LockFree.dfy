/**
 One inserting thread and any number of looking-up threads on the shared skip list.
 Each step performs at most one access to memory that another thread may touch; steps
 of different threads interleave in every order.

 The writer's stores appear in program order: `max_height_`, then for each level the
 new node's own slot, then the slot of its predecessor, from level 0 upwards.
 */
module LockFree {
  import opened Chains
  import opened Lists
  import opened Ordering

  datatype Writer<Key> =
    | Idle
    | Called(key: Key)
    | Walking(key: Key, x: nat, level: nat)
    | Found(key: Key)
    | Raised(key: Key, height: nat)
    | Filling(key: Key, height: nat, node: nat, level: nat)
    | Publishing(key: Key, height: nat, node: nat, level: nat)
    | Finished(key: Key, node: nat)

  datatype Reader<Key> =
    | Entered(key: Key)
    | Searching(key: Key, x: nat, level: nat)
    | Answering(key: Key, result: Link<nat>)

  /** Shared memory, the writer's remembered predecessors, and where each thread stands. */
  datatype State<Key> = State(
    pool: Pool<nat, Key>,
    maxHeight: nat,
    prev: seq<nat>,
    writer: Writer<Key>,
    readers: map<nat, Reader<Key>>)

  ghost predicate Init<Key>(s: State<Key>) {
    && s.writer == Idle && s.readers == map[]
    && Empty(List(s.pool, s.maxHeight, s.prev, seq(MAX_HEIGHT, _ => [s.pool.head]), map[s.pool.head := MAX_HEIGHT]))
  }

  datatype Action<Key> =
    | StartInsert(key: Key)
    | TryHint
    | Walk
    | Raise(height: nat)
    | Allocate(node: nat)
    | Fill
    | Publish
    | EndInsert
    | StartContains(reader: nat, key: Key)
    | LoadHeight(reader: nat)
    | LoadNext(reader: nat)
    | EndContains(reader: nat)

  ghost predicate Enabled<Key>(s: State<Key>, a: Action<Key>) {
    match a
    case StartInsert(_) => s.writer.Idle?
    case TryHint => s.writer.Called?
    case Walk => s.writer.Walking?
    case Raise(height) => s.writer.Found? && 1 <= height <= MAX_HEIGHT
    case Allocate(node) => s.writer.Raised? && node !in s.pool.links
    case Fill => s.writer.Filling?
    case Publish => s.writer.Publishing?
    case EndInsert => s.writer.Finished?
    case StartContains(r, _) => r !in s.readers
    case LoadHeight(r) => r in s.readers && s.readers[r].Entered?
    case LoadNext(r) => r in s.readers && s.readers[r].Searching?
    case EndContains(r) => r in s.readers && s.readers[r].Answering?
  }

  /** A slot of `prev`; the invariant keeps the index in range. */
  ghost function Prev<Key>(s: State<Key>, level: nat): nat {
    if level < |s.prev| then s.prev[level] else s.pool.head
  }

  ghost function SetPrev<Key>(s: State<Key>, level: nat, x: nat): seq<nat> {
    if level < |s.prev| then s.prev[level := x] else s.prev
  }

  ghost function Next<Key>(cmp: Comparator<Key>, s: State<Key>, a: Action<Key>): State<Key>
    requires Enabled(s, a)
  {
    match a
    case StartInsert(key) => s.(writer := Called(key))
    case TryHint => TryHintNext(cmp, s)
    case Walk => WalkNext(cmp, s)
    case Raise(height) => RaiseNext(s, height)
    case Allocate(node) =>
      s.(pool := s.pool.Add(node, s.writer.key, s.writer.height),
         writer := Filling(s.writer.key, s.writer.height, node, 0))
    case Fill => FillNext(s)
    case Publish => PublishNext(s)
    case EndInsert => s.(prev := SetPrev(s, 0, s.writer.node), writer := Idle)
    case StartContains(r, key) => s.(readers := s.readers[r := Entered(key)])
    case LoadHeight(r) =>
      s.(readers := s.readers[r := Searching(s.readers[r].key, s.pool.head, if s.maxHeight > 0 then s.maxHeight - 1 else 0)])
    case LoadNext(r) => s.(readers := s.readers[r := AfterLoad(cmp, s, s.readers[r])])
    case EndContains(r) => s.(readers := s.readers - {r})
  }

  ghost function TryHintNext<Key>(cmp: Comparator<Key>, s: State<Key>): State<Key>
    requires s.writer.Called?
  {
    var key, x := s.writer.key, Prev(s, 0);
    if !LinkLess(cmp, s.pool, s.pool.Slot(x, 0), key) && (x == s.pool.head || NodeLess(cmp, s.pool, x, key)) then
      s.(writer := Found(key))
    else
      s.(writer := Walking(key, s.pool.head, if s.maxHeight > 0 then s.maxHeight - 1 else 0))
  }

  ghost function WalkNext<Key>(cmp: Comparator<Key>, s: State<Key>): State<Key>
    requires s.writer.Walking?
  {
    var Walking(key, x, level) := s.writer;
    var next := s.pool.Slot(x, level);
    if LinkLess(cmp, s.pool, next, key) then
      s.(writer := Walking(key, next.node, level))
    else
      s.(prev := SetPrev(s, level, x),
         writer := if level == 0 then Found(key) else Walking(key, x, level - 1))
  }

  /** The remembered predecessors with the head at the levels from `low` below `high`. */
  ghost function HeadBetween(prev: seq<nat>, low: nat, high: nat, head: nat): (p: seq<nat>)
    ensures |p| == |prev|
    ensures forall i :: 0 <= i < |p| ==> p[i] == if low <= i < high then head else prev[i]
  {
    if prev == [] then []
    else HeadBetween(prev[..|prev| - 1], low, high, head) + [if low <= |prev| - 1 < high then head else prev[|prev| - 1]]
  }

  ghost function RaiseNext<Key>(s: State<Key>, height: nat): State<Key>
    requires s.writer.Found?
  {
    if height > s.maxHeight then
      s.(prev := HeadBetween(s.prev, s.maxHeight, height, s.pool.head),
         maxHeight := height,
         writer := Raised(s.writer.key, height))
    else
      s.(writer := Raised(s.writer.key, height))
  }

  ghost function FillNext<Key>(s: State<Key>): State<Key>
    requires s.writer.Filling?
  {
    var Filling(key, height, node, level) := s.writer;
    s.(pool := s.pool.Store(node, level, s.pool.Slot(Prev(s, level), level)),
       writer := Publishing(key, height, node, level))
  }

  ghost function PublishNext<Key>(s: State<Key>): State<Key>
    requires s.writer.Publishing?
  {
    var Publishing(key, height, node, level) := s.writer;
    s.(pool := s.pool.Store(Prev(s, level), level, To(node)),
       writer := if level + 1 < height then Filling(key, height, node, level + 1) else Finished(key, node))
  }

  ghost function AfterLoad<Key>(cmp: Comparator<Key>, s: State<Key>, t: Reader<Key>): Reader<Key>
    requires t.Searching?
  {
    var Searching(key, x, level) := t;
    var next := s.pool.Slot(x, level);
    if LinkLess(cmp, s.pool, next, key) then Searching(key, next.node, level)
    else if level > 0 then Searching(key, x, level - 1)
    else Answering(key, next)
  }

  /** The comparison `Contains` makes with the node it found. */
  ghost predicate Answer<Key>(cmp: Comparator<Key>, p: Pool<nat, Key>, key: Key, result: Link<nat>) {
    result.To? && result.node in p.keys && cmp(key, p.keys[result.node]) == 0
  }

  // ---- runs ---------------------------------------------------------------------------

  ghost predicate Execution<Key>(cmp: Comparator<Key>, states: seq<State<Key>>, actions: seq<Action<Key>>) {
    && |states| == |actions| + 1
    && Init(states[0])
    && forall i :: 0 <= i < |actions| ==> Enabled(states[i], actions[i]) && states[i + 1] == Next(cmp, states[i], actions[i])
  }

  // ---- the invariant --------------------------------------------------------------------

  /** What each level links, which no thread stores: the chains and how far each node is linked. */
  datatype View = View(chains: seq<seq<nat>>, linked: map<nat, nat>)

  ghost function ListOf<Key>(s: State<Key>, v: View): List<nat, Key> {
    List(s.pool, s.maxHeight, s.prev, v.chains, v.linked)
  }

  ghost predicate WriterInv<Key(!new)>(cmp: Comparator<Key>, s: State<Key>, v: View)
    requires Inv(cmp, ListOf(s, v))
  {
    var l := ListOf(s, v);
    match s.writer
    case Idle => Settled(l)
    case Called(_) => Settled(l)
    case Walking(key, x, level) => Settled(l) && level < l.maxHeight && Standing(cmp, l, level, x, key)
    case Found(key) => Settled(l) && Gap(cmp, l, key)
    case Raised(key, height) => Settled(l) && Gap(cmp, l, key) && 1 <= height <= l.maxHeight
    case Filling(key, height, node, level) => Pushing(cmp, l, key, height, node, level)
    case Publishing(key, height, node, level) =>
      Pushing(cmp, l, key, height, node, level) && l.pool.Slot(node, level) == l.pool.Slot(l.prev[level], level)
    case Finished(_, node) => Settled(l) && node in l.chains[0]
  }

  /** The node is linked on the levels below `level` only; every other node on all its levels. */
  ghost predicate Pushing<Key(!new)>(cmp: Comparator<Key>, l: List<nat, Key>, key: Key, height: nat, node: nat, level: nat)
    requires Inv(cmp, l)
  {
    && level < height <= l.maxHeight
    && node in l.linked && node != l.pool.head
    && l.linked[node] == level && l.pool.Height(node) == height
    && l.pool.keys[node] == key
    && (forall x :: x in l.linked && x != node ==> l.linked[x] == l.pool.Height(x))
    && (level == 0 ==> Gap(cmp, l, key))
  }

  ghost predicate ReaderInv<Key(!new)>(cmp: Comparator<Key>, l: List<nat, Key>, t: Reader<Key>)
    requires Inv(cmp, l)
  {
    match t
    case Entered(_) => true
    case Searching(key, x, level) => Standing(cmp, l, level, x, key)
    case Answering(key, result) => result != Unset && (result.To? ==> result.node in l.pool.keys)
  }

  ghost predicate Good<Key(!new)>(cmp: Comparator<Key>, s: State<Key>, v: View) {
    && Inv(cmp, ListOf(s, v))
    && WriterInv(cmp, s, v)
    && (forall r :: r in s.readers ==> ReaderInv(cmp, ListOf(s, v), s.readers[r]))
  }

  /** How the view changes: only an allocation and a publication add to it. */
  ghost function NextView<Key>(s: State<Key>, v: View, a: Action<Key>): View
    requires Enabled(s, a)
  {
    if a.Allocate? then
      v.(linked := v.linked[a.node := 0])
    else if a.Publish? && s.writer.level < |s.prev| && s.writer.level < |v.chains|
            && s.prev[s.writer.level] in v.chains[s.writer.level] then
      var m := Attach(ListOf(s, v), s.writer.node, s.writer.level);
      View(m.chains, m.linked)
    else
      v
  }

  lemma InitGood<Key(!new)>(cmp: Comparator<Key>, s: State<Key>)
    requires TotalPreorder(cmp) && Init(s)
    ensures Good(cmp, s, View(seq(MAX_HEIGHT, _ => [s.pool.head]), map[s.pool.head := MAX_HEIGHT]))
  {
    var v := View(seq(MAX_HEIGHT, _ => [s.pool.head]), map[s.pool.head := MAX_HEIGHT]);
    EmptyInv(cmp, ListOf(s, v));
  }

  // ---- readers are undisturbed -------------------------------------------------------------

  /** The list only grew: every linked node is still linked and still has its key. */
  ghost predicate Grown<Key>(l: List<nat, Key>, m: List<nat, Key>) {
    && |l.chains| == |m.chains| == MAX_HEIGHT
    && m.pool.head == l.pool.head
    && (forall i, x :: 0 <= i < MAX_HEIGHT && x in l.chains[i] ==> x in m.chains[i])
    && (forall x :: x in l.pool.keys ==> x in m.pool.keys && m.pool.keys[x] == l.pool.keys[x])
  }

  lemma ReadersKept<Key(!new)>(cmp: Comparator<Key>, l: List<nat, Key>, m: List<nat, Key>, t: Reader<Key>)
    requires Inv(cmp, l) && Inv(cmp, m) && Grown(l, m)
    requires ReaderInv(cmp, l, t)
    ensures ReaderInv(cmp, m, t)
  {
  }

  lemma AllReadersKept<Key(!new)>(cmp: Comparator<Key>, s: State<Key>, v: View, s': State<Key>, v': View)
    requires Good(cmp, s, v) && Inv(cmp, ListOf(s', v')) && Grown(ListOf(s, v), ListOf(s', v'))
    requires s'.readers == s.readers
    ensures forall r :: r in s'.readers ==> ReaderInv(cmp, ListOf(s', v'), s'.readers[r])
  {
    forall r | r in s'.readers
      ensures ReaderInv(cmp, ListOf(s', v'), s'.readers[r])
    {
      ReadersKept(cmp, ListOf(s, v), ListOf(s', v'), s.readers[r]);
    }
  }

  // ---- every step keeps the invariant ---------------------------------------------------------

  lemma HintKeeps<Key(!new)>(cmp: Comparator<Key>, s: State<Key>, v: View)
    requires Good(cmp, s, v) && s.writer.Called?
    ensures Good(cmp, TryHintNext(cmp, s), v)
  {
    var l := ListOf(s, v);
    StartSearch(cmp, l, s.writer.key);
    if TryHintNext(cmp, s).writer.Found? {
      StopSplits(cmp, l, s.prev[0], s.writer.key);
    }
  }

  lemma SetPrevInv<Key(!new)>(cmp: Comparator<Key>, l: List<nat, Key>, prev: seq<nat>)
    requires Inv(cmp, l) && |prev| == MAX_HEIGHT
    requires forall i :: 0 <= i < MAX_HEIGHT ==> prev[i] in l.chains[i]
    ensures Inv(cmp, l.(prev := prev)) && Grown(l, l.(prev := prev))
    ensures Settled(l) ==> Settled(l.(prev := prev))
  {
    assert Membership(l.(prev := prev));
  }

  /** Leaving a level records where the search stood and goes down, or has found the gap. */
  lemma LeaveLevel<Key(!new)>(cmp: Comparator<Key>, l: List<nat, Key>, x: nat, level: nat, key: Key)
    requires Inv(cmp, l) && Settled(l) && Standing(cmp, l, level, x, key)
    requires !LinkLess(cmp, l.pool, l.pool.Slot(x, level), key)
    ensures var m := l.(prev := l.prev[level := x]);
            Inv(cmp, m) && Grown(l, m) && Settled(m)
            && (if level == 0 then Gap(cmp, m, key) else Standing(cmp, m, level - 1, x, key))
  {
    hide Inv, Settled, Grown, LinkLess;
    Shape(cmp, l);
    SetPrevInv(cmp, l, l.prev[level := x]);
    if level == 0 {
      StopSplits(cmp, l, x, key);
    } else {
      Descend(cmp, l, level, level - 1, x);
    }
  }

  lemma WalkKeeps<Key(!new)>(cmp: Comparator<Key>, s: State<Key>, v: View)
    requires Good(cmp, s, v) && s.writer.Walking?
    ensures Good(cmp, WalkNext(cmp, s), v)
  {
    hide Inv, ReaderInv, Grown, Settled, Gap;
    var l := ListOf(s, v);
    var Walking(key, x, level) := s.writer;
    Shape(cmp, l);
    var s' := WalkNext(cmp, s);
    if LinkLess(cmp, l.pool, l.pool.Slot(x, level), key) {
      Advance(cmp, l, level, x, key);
      assert ListOf(s', v) == l;
    } else {
      hide LinkLess;
      LeaveLevel(cmp, l, x, level, key);
      assert ListOf(s', v) == l.(prev := l.prev[level := x]);
      AllReadersKept(cmp, s, v, s', v);
    }
  }

  lemma RaiseKeeps<Key(!new)>(cmp: Comparator<Key>, s: State<Key>, v: View, height: nat)
    requires Good(cmp, s, v) && s.writer.Found? && 1 <= height <= MAX_HEIGHT
    ensures Good(cmp, RaiseNext(s, height), v)
    ensures RaiseNext(s, height).prev == s.prev
  {
    hide Inv, Gap, ReaderInv;
    var l := ListOf(s, v);
    Shape(cmp, l);
    var s' := RaiseNext(s, height);
    forall i | 0 <= i < MAX_HEIGHT
      ensures s'.prev[i] == s.prev[i]
    {
      if s.maxHeight <= i {
        TopLevel(cmp, l, i);
      }
    }
    assert s'.prev == s.prev;
    Lists.Raise(cmp, l, s'.maxHeight);
    assert ListOf(s', v) == l.(maxHeight := s'.maxHeight);
    AllReadersKept(cmp, s, v, s', v);
  }

  lemma AddPushes<Key(!new)>(cmp: Comparator<Key>, l: List<nat, Key>, key: Key, height: nat, node: nat)
    requires Inv(cmp, l) && Settled(l) && Gap(cmp, l, key) && 1 <= height <= l.maxHeight && node !in l.pool.links
    ensures var m := AddNode(l, node, key, height);
            Inv(cmp, m) && Pushing(cmp, m, key, height, node, 0) && Grown(l, m)
  {
    hide TotalPreorder, Sorted, IsChain, Gap;
    StartLinking(cmp, l, node, key, height);
  }

  lemma AllocateKeeps<Key(!new)>(cmp: Comparator<Key>, s: State<Key>, v: View, node: nat)
    requires Good(cmp, s, v) && s.writer.Raised? && node !in s.pool.links
    ensures Good(cmp, Next(cmp, s, Allocate(node)), NextView(s, v, Allocate(node)))
  {
    hide Inv, ReaderInv, Gap, Settled, Grown;
    var l := ListOf(s, v);
    var s', v' := Next(cmp, s, Allocate(node)), NextView(s, v, Allocate(node));
    AddPushes(cmp, l, s.writer.key, s.writer.height, node);
    assert ListOf(s', v') == AddNode(l, node, s.writer.key, s.writer.height);
    AllReadersKept(cmp, s, v, s', v');
  }

  lemma FillKeeps<Key(!new)>(cmp: Comparator<Key>, s: State<Key>, v: View)
    requires Good(cmp, s, v) && s.writer.Filling?
    ensures Good(cmp, FillNext(s), v)
  {
    var l := ListOf(s, v);
    var Filling(key, height, node, level) := s.writer;
    FillInv(cmp, l, node, level);
    var s' := FillNext(s);
    var m := ListOf(s', v);
    assert m == Lists.Fill(l, node, level);
    forall x
      ensures m.pool.Height(x) == l.pool.Height(x)
    {
      StoreHeight(l.pool, node, level, l.pool.Slot(l.prev[level], level), x);
    }
    if level == 0 {
      GapSameKeys(cmp, l, m, key);
    }
    AllReadersKept(cmp, s, v, s', v);
  }

  lemma GapSameKeys<Key(!new)>(cmp: Comparator<Key>, l: List<nat, Key>, m: List<nat, Key>, key: Key)
    requires Gap(cmp, l, key) && m.chains == l.chains && m.prev == l.prev && m.pool.keys == l.pool.keys
    ensures Gap(cmp, m, key)
  {
    assert forall x :: NodeLess(cmp, l.pool, x, key) == NodeLess(cmp, m.pool, x, key);
  }

  lemma AttachGrows<Key(!new)>(cmp: Comparator<Key>, l: List<nat, Key>, y: nat, level: nat)
    requires Inv(cmp, l) && level < MAX_HEIGHT
    ensures Grown(l, Attach(l, y, level))
    ensures forall x :: Attach(l, y, level).pool.Height(x) == l.pool.Height(x)
  {
    hide TotalPreorder, Sorted, IsChain, Membership;
    var m := Attach(l, y, level);
    forall x
      ensures m.pool.Height(x) == l.pool.Height(x)
    {
      StoreHeight(l.pool, l.prev[level], level, To(y), x);
    }
    forall i, x | 0 <= i < MAX_HEIGHT && x in l.chains[i]
      ensures x in m.chains[i]
    {
      InsertMember(l.chains[level], l.prev[level], y, x);
    }
  }

  lemma PushingPublishable<Key(!new)>(cmp: Comparator<Key>, l: List<nat, Key>, key: Key, height: nat, node: nat, level: nat)
    requires Inv(cmp, l) && Pushing(cmp, l, key, height, node, level)
    requires l.pool.Slot(node, level) == l.pool.Slot(l.prev[level], level)
    ensures level < l.maxHeight <= MAX_HEIGHT && Publishable(cmp, l, node, level) && l.pool.keys[node] == key
  {
  }

  lemma AttachPushes<Key(!new)>(cmp: Comparator<Key>, l: List<nat, Key>, key: Key, height: nat, node: nat, level: nat)
    requires Inv(cmp, l) && Pushing(cmp, l, key, height, node, level)
    requires Inv(cmp, Attach(l, node, level))
    ensures var m := Attach(l, node, level);
            if level + 1 < height then Pushing(cmp, m, key, height, node, level + 1)
            else Settled(m) && node in m.chains[0]
  {
    hide TotalPreorder, Sorted, IsChain, Grown;
    AttachGrows(cmp, l, node, level);
    var m := Attach(l, node, level);
    assert node in m.chains[0] <==> 0 < m.linked[node];
  }

  lemma PublishKeeps<Key(!new)>(cmp: Comparator<Key>, s: State<Key>, v: View)
    requires Good(cmp, s, v) && s.writer.Publishing?
    ensures Good(cmp, PublishNext(s), NextView(s, v, Publish))
    ensures multiset(Contents(cmp, ListOf(PublishNext(s), NextView(s, v, Publish)))) ==
            multiset(Contents(cmp, ListOf(s, v))) + if s.writer.level == 0 then multiset{s.writer.key} else multiset{}
  {
    hide Inv, Contents, Grown, ReaderInv, Gap, Settled, Pushing, Publishable;
    var l := ListOf(s, v);
    var Publishing(key, height, node, level) := s.writer;
    Shape(cmp, l);
    PushingPublishable(cmp, l, key, height, node, level);
    LinkInv(cmp, l, node, level);
    AttachGrows(cmp, l, node, level);
    AttachPushes(cmp, l, key, height, node, level);
    var s', v' := PublishNext(s), NextView(s, v, Publish);
    assert ListOf(s', v') == Attach(l, node, level);
    AllReadersKept(cmp, s, v, s', v');
  }

  lemma EndInsertKeeps<Key(!new)>(cmp: Comparator<Key>, s: State<Key>, v: View)
    requires Good(cmp, s, v) && s.writer.Finished?
    ensures Good(cmp, Next(cmp, s, EndInsert), v)
  {
    var s' := Next(cmp, s, EndInsert);
    SetPrevInv(cmp, ListOf(s, v), s'.prev);
    AllReadersKept(cmp, s, v, s', v);
  }

  lemma LoadKeeps<Key(!new)>(cmp: Comparator<Key>, s: State<Key>, v: View, t: Reader<Key>)
    requires Inv(cmp, ListOf(s, v)) && t.Searching? && ReaderInv(cmp, ListOf(s, v), t)
    ensures ReaderInv(cmp, ListOf(s, v), AfterLoad(cmp, s, t))
  {
    hide Inv;
    var l := ListOf(s, v);
    Shape(cmp, l);
    var Searching(key, x, level) := t;
    SlotReady(cmp, l, level, x);
    Advance(cmp, l, level, x, key);
    if level > 0 {
      Descend(cmp, l, level, level - 1, x);
    }
  }

  lemma ReaderStepKeeps<Key(!new)>(cmp: Comparator<Key>, s: State<Key>, v: View, a: Action<Key>)
    requires Good(cmp, s, v) && Enabled(s, a)
    requires a.StartContains? || a.LoadHeight? || a.LoadNext? || a.EndContains?
    ensures Good(cmp, Next(cmp, s, a), v)
  {
    hide Inv, AfterLoad, Standing, Settled, Pushing, Gap;
    var l := ListOf(s, v);
    Shape(cmp, l);
    if a.LoadHeight? {
      StartSearch(cmp, l, s.readers[a.reader].key);
    } else if a.LoadNext? {
      LoadKeeps(cmp, s, v, s.readers[a.reader]);
    }
  }

  lemma StartInsertKeeps<Key(!new)>(cmp: Comparator<Key>, s: State<Key>, v: View, key: Key)
    requires Good(cmp, s, v) && s.writer.Idle?
    ensures Good(cmp, s.(writer := Called(key)), v)
  {
    hide Inv, ReaderInv, Settled;
    assert ListOf(s.(writer := Called(key)), v) == ListOf(s, v);
  }

  /** Every step of every thread keeps the invariant. */
  lemma StepKeeps<Key(!new)>(cmp: Comparator<Key>, s: State<Key>, v: View, a: Action<Key>)
    requires Good(cmp, s, v) && Enabled(s, a)
    ensures Good(cmp, Next(cmp, s, a), NextView(s, v, a))
  {
    hide Good;
    match a
    case StartInsert(key) => StartInsertKeeps(cmp, s, v, key);
    case TryHint => HintKeeps(cmp, s, v);
    case Walk => WalkKeeps(cmp, s, v);
    case Raise(height) => RaiseKeeps(cmp, s, v, height);
    case Allocate(node) => AllocateKeeps(cmp, s, v, node);
    case Fill => FillKeeps(cmp, s, v);
    case Publish => PublishKeeps(cmp, s, v);
    case EndInsert => EndInsertKeeps(cmp, s, v);
    case StartContains(_, _) => ReaderStepKeeps(cmp, s, v, a);
    case LoadHeight(_) => ReaderStepKeeps(cmp, s, v, a);
    case LoadNext(_) => ReaderStepKeeps(cmp, s, v, a);
    case EndContains(_) => ReaderStepKeeps(cmp, s, v, a);
  }
}
