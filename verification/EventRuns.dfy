/** All interleavings of event sources, dispatchers and pools. */
module EventRuns {
  import opened Events

  datatype Step =
    | Initial(k: nat, capacity: nat)
    | Alloc(k: nat)
    | Fire(m: Msg, pick: nat)
    | Release(id: Id)
    | Pop(q: nat)
    | Serve(q: nat)
    | Finish(q: nat)

  // held: the fast events callers have. fired and delivered: histories.
  datatype System = System(state: State, held: multiset<Id>, fired: seq<Msg>, delivered: seq<Msg>)

  ghost function Start(n: nat): System {
    System(State(seq(n, i => []), seq(n, i => Nothing), map[]), multiset{}, [], [])
  }

  ghost predicate Enabled(s: System, step: Step) {
    Shaped(s.state) &&
    match step
    case Initial(k, capacity) => k !in s.state.pools
    case Alloc(k) => k in s.state.pools && s.state.pools[k].free != []
    case Fire(m, pick) =>
      && |s.state.queues[QueueOf(m.source, pick, |s.state.queues|)]| < QUEUE_LIMIT
      && (m.id.Fast? ==> m.id in s.held)
    case Release(id) => id.Fast? && id in s.held
    case Pop(q) => q < |s.state.queues| && s.state.hands[q].Nothing? && s.state.queues[q] != []
    case Serve(q) => q < |s.state.queues| && s.state.hands[q].Popped?
    case Finish(q) => q < |s.state.queues| && s.state.hands[q].Served?
  }

  ghost function Do(s: System, step: Step): System
    requires Enabled(s, step)
  {
    match step
    case Initial(k, capacity) => s.(state := Initialised(s.state, k, capacity))
    case Alloc(k) => s.(state := Allocated(s.state, k), held := s.held + multiset{s.state.pools[k].free[0]})
    case Fire(m, pick) =>
      s.(state := Fired(s.state, m, QueueOf(m.source, pick, |s.state.queues|)), held := s.held - multiset{m.id},
        fired := s.fired + [m])
    case Release(id) => s.(state := s.state.(pools := Returned(s.state.pools, id)), held := s.held - multiset{id})
    case Pop(q) => s.(state := Taken(s.state, q))
    case Serve(q) => s.(state := Delivered(s.state, q), delivered := s.delivered + [s.state.hands[q].msg])
    case Finish(q) => s.(state := Finished(s.state, q))
  }

  datatype Reached = At(system: System) | Impossible

  // The state after a run of n dispatchers, if there is such a run.
  ghost function After(run: seq<Step>, n: nat): Reached {
    if run == [] then At(Start(n))
    else
      var r := After(run[..|run| - 1], n);
      if r.At? && Enabled(r.system, run[|run| - 1]) then At(Do(r.system, run[|run| - 1])) else Impossible
  }

  // ----- order per source -----

  ghost function Only(ms: seq<Msg>, source: nat): seq<Msg> {
    if ms == [] then []
    else Only(ms[..|ms| - 1], source) + (if ms[|ms| - 1].source == source then [ms[|ms| - 1]] else [])
  }

  lemma {:induction false} OnlyConcat(a: seq<Msg>, b: seq<Msg>, source: nat)
    ensures Only(a + b, source) == Only(a, source) + Only(b, source)
  {
    if b == [] {
      assert a + b == a;
    } else {
      assert (a + b)[..|a + b| - 1] == a + b[..|b| - 1];
      OnlyConcat(a, b[..|b| - 1], source);
    }
  }

  lemma {:induction false} OnlyOne(m: Msg, source: nat)
    ensures Only([m], source) == if m.source == source then [m] else []
  {
    assert [m][..0] == [];
  }

  ghost function InHand(h: Hand): seq<Msg> {
    if h.Popped? then [h.msg] else []
  }

  // What is on its way through dispatcher q.
  ghost function Pending(s: State, q: nat): seq<Msg>
    requires q < |s.queues| == |s.hands|
  {
    InHand(s.hands[q]) + s.queues[q]
  }

  // An event with a source is in its source's queue.
  ghost predicate Routed(s: State) {
    && Shaped(s)
    && forall q, m | 0 <= q < |s.queues| && m in Pending(s, q) && m.source != NULL_SOURCE :: q == m.source % |s.queues|
  }

  ghost predicate InOrder(s: System) {
    && Routed(s.state)
    && forall source: nat | source != NULL_SOURCE ::
         Only(s.delivered, source) + Only(Pending(s.state, source % |s.state.queues|), source) == Only(s.fired, source)
  }

  // m joins what is on its way through its queue.
  lemma {:induction false} FireInOrder(s: System, m: Msg, pick: nat)
    requires InOrder(s)
    ensures var q := QueueOf(m.source, pick, |s.state.queues|);
            InOrder(s.(state := Fired(s.state, m, q), fired := s.fired + [m]))
  {
    hide Only;
    var n, q := |s.state.queues|, QueueOf(m.source, pick, |s.state.queues|);
    var s' := s.(state := Fired(s.state, m, q), fired := s.fired + [m]);
    assert Pending(s'.state, q) == Pending(s.state, q) + [m];
    assert forall p | 0 <= p < n && p != q :: Pending(s'.state, p) == Pending(s.state, p);
    hide Pending;
    forall source: nat | source != NULL_SOURCE
      ensures Only(s'.delivered, source) + Only(Pending(s'.state, source % n), source) == Only(s'.fired, source)
    {
      OnlyOne(m, source);
      OnlyConcat(s.fired, [m], source);
      OnlyConcat(Pending(s.state, q), [m], source);
    }
  }

  // m, the next event of dispatcher q, is delivered.
  lemma {:induction false} ServeInOrder(s: System, q: nat)
    requires InOrder(s) && q < |s.state.hands| && s.state.hands[q].Popped?
    ensures InOrder(s.(state := Delivered(s.state, q), delivered := s.delivered + [s.state.hands[q].msg]))
  {
    hide Only;
    var n, m := |s.state.queues|, s.state.hands[q].msg;
    var s' := s.(state := Delivered(s.state, q), delivered := s.delivered + [m]);
    assert Pending(s.state, q) == [m] + Pending(s'.state, q);
    assert m in Pending(s.state, q);
    assert forall p | 0 <= p < n && p != q :: Pending(s'.state, p) == Pending(s.state, p);
    hide Pending;
    forall source: nat | source != NULL_SOURCE
      ensures Only(s'.delivered, source) + Only(Pending(s'.state, source % n), source) == Only(s'.fired, source)
    {
      OnlyOne(m, source);
      OnlyConcat(s.delivered, [m], source);
      OnlyConcat([m], Pending(s'.state, q), source);
    }
  }

  lemma {:induction false} SamePending(s: System, s': System)
    requires InOrder(s) && Shaped(s'.state) && |s'.state.queues| == |s.state.queues|
    requires s'.fired == s.fired && s'.delivered == s.delivered
    requires forall q | 0 <= q < |s.state.queues| :: Pending(s'.state, q) == Pending(s.state, q)
    ensures InOrder(s')
  {
    hide Only, Pending;
  }

  lemma {:induction false} DoInOrder(s: System, step: Step)
    requires InOrder(s) && Enabled(s, step)
    ensures InOrder(Do(s, step)) && |Do(s, step).state.queues| == |s.state.queues|
  {
    match step {
      case Fire(m, pick) =>
        var held := s.held - multiset{m.id};
        FireInOrder(s.(held := held), m, pick);
      case Serve(q) => ServeInOrder(s, q);
      case Pop(q) =>
        assert s.state.queues[q] == [s.state.queues[q][0]] + s.state.queues[q][1..];
        assert Pending(s.state, q) == Pending(Taken(s.state, q), q);
        SamePending(s, Do(s, step));
      case _ => SamePending(s, Do(s, step));
    }
  }

  // In every interleaving, for every source: what was delivered, then what
  // a dispatcher has in hand, then what is queued, is what was fired.
  lemma {:induction false} SourceOrder(run: seq<Step>, n: nat)
    requires n > 0 && After(run, n).At?
    ensures InOrder(After(run, n).system) && |After(run, n).system.state.queues| == n
  {
    if run == [] {
      assert InOrder(Start(n));
    } else {
      SourceOrder(run[..|run| - 1], n);
      DoInOrder(After(run[..|run| - 1], n).system, run[|run| - 1]);
    }
  }

  // ----- the pools -----

  ghost function IdsOf(ms: seq<Msg>): multiset<Id> {
    if ms == [] then multiset{} else multiset{ms[0].id} + IdsOf(ms[1..])
  }

  ghost function QueueIds(queues: seq<seq<Msg>>): multiset<Id> {
    if queues == [] then multiset{} else QueueIds(queues[..|queues| - 1]) + IdsOf(queues[|queues| - 1])
  }

  ghost function HandId(h: Hand): multiset<Id> {
    if h.Nothing? then multiset{} else multiset{h.msg.id}
  }

  ghost function HandIds(hands: seq<Hand>): multiset<Id> {
    if hands == [] then multiset{} else HandIds(hands[..|hands| - 1]) + HandId(hands[|hands| - 1])
  }

  lemma {:induction false} IdsOfPush(ms: seq<Msg>, m: Msg)
    ensures IdsOf(ms + [m]) == IdsOf(ms) + multiset{m.id}
  {
    if ms == [] {
      assert [m][1..] == [];
    } else {
      assert (ms + [m])[1..] == ms[1..] + [m];
      IdsOfPush(ms[1..], m);
    }
  }

  lemma Swap(a: multiset<Id>, b: multiset<Id>, c: multiset<Id>)
    ensures a + b + c == a + c + b
  {
  }

  lemma {:induction false} QueueIdsUpdate(queues: seq<seq<Msg>>, q: nat, ms: seq<Msg>)
    requires q < |queues|
    ensures QueueIds(queues[q := ms]) + IdsOf(queues[q]) == QueueIds(queues) + IdsOf(ms)
  {
    hide IdsOf;
    var n := |queues| - 1;
    if q == n {
      assert queues[q := ms][..n] == queues[..n];
    } else {
      assert queues[q := ms][..n] == queues[..n][q := ms];
      QueueIdsUpdate(queues[..n], q, ms);
      Swap(QueueIds(queues[..n][q := ms]), IdsOf(queues[n]), IdsOf(queues[q]));
      Swap(QueueIds(queues[..n]), IdsOf(queues[n]), IdsOf(ms));
    }
  }

  lemma {:induction false} HandIdsUpdate(hands: seq<Hand>, q: nat, h: Hand)
    requires q < |hands|
    ensures HandIds(hands[q := h]) + HandId(hands[q]) == HandIds(hands) + HandId(h)
  {
    hide HandId;
    var n := |hands| - 1;
    if q == n {
      assert hands[q := h][..n] == hands[..n];
    } else {
      assert hands[q := h][..n] == hands[..n][q := h];
      HandIdsUpdate(hands[..n], q, h);
      Swap(HandIds(hands[..n][q := h]), HandId(hands[n]), HandId(hands[q]));
      Swap(HandIds(hands[..n]), HandId(hands[n]), HandId(h));
    }
  }

  // How often an event is with callers, queued or being dispatched.
  ghost function Outside(s: System): multiset<Id> {
    s.held + QueueIds(s.state.queues) + HandIds(s.state.hands)
  }

  ghost function InPool(pools: map<nat, FastPool>, id: Id): nat
    requires id.Fast?
  {
    if id.pool in pools then multiset(pools[id.pool].free)[id] else 0
  }

  ghost predicate Exists(pools: map<nat, FastPool>, id: Id)
    requires id.Fast?
  {
    id.pool in pools && id.n < pools[id.pool].capacity
  }

  // Every event of every pool is in one place, once: free, with a caller,
  // queued or in dispatch; and there are no other fast events.
  ghost predicate Conserved(s: System) {
    && (forall id: Id | id.Fast? ::
          InPool(s.state.pools, id) + Outside(s)[id] == if Exists(s.state.pools, id) then 1 else 0)
    && (forall k | k in s.state.pools :: OfPool(k, s.state.pools[k].free))
  }

  ghost predicate OfPool(k: nat, free: seq<Id>) {
    forall i | 0 <= i < |free| :: free[i].Fast? && free[i].pool == k
  }

  // At most as many events are free as the pool was made with.
  lemma {:induction false} FreeFits(free: seq<Id>, k: nat, capacity: nat)
    requires OfPool(k, free)
    requires forall id | id in multiset(free) :: id.n < capacity && multiset(free)[id] == 1
    ensures |free| <= capacity
  {
    Enumerates(multiset(free), k, capacity);
  }

  lemma {:induction false} Enumerates(m: multiset<Id>, k: nat, capacity: nat)
    requires forall id | id in m :: id.Fast? && id.pool == k && id.n < capacity && m[id] == 1
    ensures |m| <= capacity
  {
    if capacity == 0 {
      assert m == multiset{};
    } else {
      var top := Fast(k, capacity - 1);
      Enumerates(m - multiset{top}, k, capacity - 1);
      assert top in m ==> m == (m - multiset{top}) + multiset{top};
      assert top !in m ==> m == m - multiset{top};
    }
  }

  // Giving back cannot fail: the pool has room for all its events.
  lemma {:induction false} GivesBack(s: System, k: nat)
    requires Conserved(s) && k in s.state.pools
    ensures |s.state.pools[k].free| <= s.state.pools[k].capacity
    ensures forall id :: GiveBack(s.state.pools[k], id).free == s.state.pools[k].free + [id]
  {
    var p := s.state.pools[k];
    forall id | id in multiset(p.free) ensures id.n < p.capacity && multiset(p.free)[id] == 1 {
      assert exists i :: 0 <= i < |p.free| && p.free[i] == id;
      assert InPool(s.state.pools, id) + Outside(s)[id] <= 1;
    }
    FreeFits(p.free, k, p.capacity);
  }

  lemma {:induction false} FreshIds(k: nat, n: nat)
    ensures OfPool(k, Fresh(k, n))
    ensures forall id: Id :: multiset(Fresh(k, n))[id] == if id.Fast? && id.pool == k && id.n < n then 1 else 0
  {
    if n > 0 {
      FreshIds(k, n - 1);
    }
  }

  lemma {:induction false} InitialConserved(s: System, k: nat, capacity: nat)
    requires Conserved(s) && k !in s.state.pools
    ensures Conserved(s.(state := Initialised(s.state, k, capacity)))
  {
    hide QueueIds, HandIds;
    FreshIds(k, capacity);
    hide Fresh;
    var s' := s.(state := Initialised(s.state, k, capacity));
    forall id: Id | id.Fast?
      ensures InPool(s'.state.pools, id) + Outside(s')[id] == if Exists(s'.state.pools, id) then 1 else 0
    {
      assert InPool(s.state.pools, id) + Outside(s)[id] == if Exists(s.state.pools, id) then 1 else 0;
    }
  }

  lemma {:induction false} AllocConserved(s: System, k: nat)
    requires Conserved(s) && k in s.state.pools && s.state.pools[k].free != []
    ensures Conserved(s.(state := Allocated(s.state, k), held := s.held + multiset{s.state.pools[k].free[0]}))
  {
    hide QueueIds, HandIds;
    var free := s.state.pools[k].free;
    assert free == [free[0]] + free[1..];
    assert multiset(free) == multiset{free[0]} + multiset(free[1..]);
    var s' := s.(state := Allocated(s.state, k), held := s.held + multiset{free[0]});
    forall id: Id | id.Fast?
      ensures InPool(s'.state.pools, id) + Outside(s')[id] == if Exists(s'.state.pools, id) then 1 else 0
    {
      assert InPool(s.state.pools, id) + Outside(s)[id] == if Exists(s.state.pools, id) then 1 else 0;
    }
  }

  // One event goes from outside back to its pool.
  lemma {:induction false} ReturnConserved(s: System, s': System, id: Id)
    requires Conserved(s) && id.Fast? && id in Outside(s)
    requires Outside(s') == Outside(s) - multiset{id} && s'.state.pools == Returned(s.state.pools, id)
    ensures Conserved(s')
  {
    hide Outside;
    assert InPool(s.state.pools, id) + Outside(s)[id] == 1 && Exists(s.state.pools, id);
    GivesBack(s, id.pool);
    forall x: Id | x.Fast?
      ensures InPool(s'.state.pools, x) + Outside(s')[x] == if Exists(s'.state.pools, x) then 1 else 0
    {
      assert InPool(s.state.pools, x) + Outside(s)[x] == if Exists(s.state.pools, x) then 1 else 0;
    }
  }

  // Fast events change places outside the pools only.
  lemma {:induction false} MoveConserved(s: System, s': System)
    requires Conserved(s) && s'.state.pools == s.state.pools
    requires forall id: Id | id.Fast? :: Outside(s')[id] == Outside(s)[id]
    ensures Conserved(s')
  {
    hide Outside, InPool, Exists;
  }

  lemma {:induction false} FireConserved(s: System, m: Msg, q: nat)
    requires Conserved(s) && q < |s.state.queues| && (m.id.Fast? ==> m.id in s.held)
    ensures Conserved(s.(state := Fired(s.state, m, q), held := s.held - multiset{m.id}, fired := s.fired + [m]))
  {
    hide QueueIds, HandIds, IdsOf, Conserved;
    var s' := s.(state := Fired(s.state, m, q), held := s.held - multiset{m.id}, fired := s.fired + [m]);
    IdsOfPush(s.state.queues[q], m);
    QueueIdsUpdate(s.state.queues, q, s.state.queues[q] + [m]);
    assert QueueIds(s'.state.queues) == QueueIds(s.state.queues) + multiset{m.id} by {
      Cancel(QueueIds(s'.state.queues), QueueIds(s.state.queues), multiset{m.id}, IdsOf(s.state.queues[q]));
    }
    MoveConserved(s, s');
  }

  lemma Cancel(a: multiset<Id>, b: multiset<Id>, c: multiset<Id>, x: multiset<Id>)
    requires a + x == b + (x + c)
    ensures a == b + c
  {
    forall id: Id ensures a[id] == (b + c)[id] {
      assert (a + x)[id] == (b + (x + c))[id];
    }
  }

  lemma {:induction false} PopConserved(s: System, q: nat)
    requires Conserved(s) && Shaped(s.state) && q < |s.state.queues| && s.state.queues[q] != [] &&
             s.state.hands[q].Nothing?
    ensures Conserved(s.(state := Taken(s.state, q)))
  {
    var ms := s.state.queues[q];
    var s' := s.(state := Taken(s.state, q));
    assert IdsOf(ms) == multiset{ms[0].id} + IdsOf(ms[1..]);
    hide QueueIds, HandIds, IdsOf, Conserved;
    QueueIdsUpdate(s.state.queues, q, ms[1..]);
    HandIdsUpdate(s.state.hands, q, Popped(ms[0]));
    forall id: Id ensures Outside(s')[id] == Outside(s)[id] {
      assert (QueueIds(s'.state.queues) + IdsOf(ms))[id] == (QueueIds(s.state.queues) + IdsOf(ms[1..]))[id];
      assert (HandIds(s'.state.hands) + multiset{})[id] == (HandIds(s.state.hands) + multiset{ms[0].id})[id];
    }
    MoveConserved(s, s');
  }

  lemma {:induction false} ServeConserved(s: System, q: nat)
    requires Conserved(s) && q < |s.state.hands| && s.state.hands[q].Popped?
    ensures Conserved(s.(state := Delivered(s.state, q), delivered := s.delivered + [s.state.hands[q].msg]))
  {
    hide QueueIds, HandIds, Conserved;
    var s' := s.(state := Delivered(s.state, q), delivered := s.delivered + [s.state.hands[q].msg]);
    HandIdsUpdate(s.state.hands, q, Served(s.state.hands[q].msg));
    forall id: Id ensures Outside(s')[id] == Outside(s)[id] {
      assert (HandIds(s'.state.hands) + HandId(s.state.hands[q]))[id] ==
        (HandIds(s.state.hands) + HandId(s.state.hands[q]))[id];
    }
    MoveConserved(s, s');
  }

  lemma {:induction false} FinishConserved(s: System, q: nat)
    requires Conserved(s) && q < |s.state.hands| && s.state.hands[q].Served?
    ensures Conserved(s.(state := Finished(s.state, q)))
  {
    hide QueueIds, HandIds, Conserved;
    var s' := s.(state := Finished(s.state, q));
    var m := s.state.hands[q].msg;
    HandIdsUpdate(s.state.hands, q, Nothing);
    forall id: Id ensures Outside(s)[id] == Outside(s')[id] + multiset{m.id}[id] {
      assert (HandIds(s'.state.hands) + multiset{m.id})[id] == (HandIds(s.state.hands) + multiset{})[id];
    }
    if m.id.Fast? {
      assert Outside(s') == Outside(s) - multiset{m.id};
      ReturnConserved(s, s', m.id);
    } else {
      MoveConserved(s, s');
    }
  }

  lemma {:induction false} DoConserved(s: System, step: Step)
    requires Conserved(s) && Enabled(s, step)
    ensures Conserved(Do(s, step))
  {
    hide Conserved, QueueIds, HandIds;
    match step {
      case Initial(k, capacity) => InitialConserved(s, k, capacity);
      case Alloc(k) => AllocConserved(s, k);
      case Fire(m, pick) => FireConserved(s, m, QueueOf(m.source, pick, |s.state.queues|));
      case Release(id) =>
        assert Outside(Do(s, step)) == Outside(s) - multiset{id};
        ReturnConserved(s, Do(s, step), id);
      case Pop(q) => PopConserved(s, q);
      case Serve(q) => ServeConserved(s, q);
      case Finish(q) => FinishConserved(s, q);
    }
  }

  // In every interleaving no fast event is lost, doubled or handed out
  // twice, and no pool ever overflows.
  lemma {:induction false} PoolsConserved(run: seq<Step>, n: nat)
    requires After(run, n).At?
    ensures Conserved(After(run, n).system)
    ensures forall k | k in After(run, n).system.state.pools ::
              |After(run, n).system.state.pools[k].free| <= After(run, n).system.state.pools[k].capacity
  {
    if run == [] {
      NothingOutside(n);
    } else {
      hide Conserved;
      PoolsConserved(run[..|run| - 1], n);
      DoConserved(After(run[..|run| - 1], n).system, run[|run| - 1]);
    }
    var s := After(run, n).system;
    forall k | k in s.state.pools ensures |s.state.pools[k].free| <= s.state.pools[k].capacity {
      GivesBack(s, k);
    }
  }

  lemma {:induction false} NothingOutside(n: nat)
    ensures Conserved(Start(n))
  {
    EmptyQueues(n);
    EmptyHands(n);
  }

  lemma {:induction false} EmptyQueues(n: nat)
    ensures QueueIds(seq(n, i => [])) == multiset{}
  {
    if n > 0 {
      EmptyQueues(n - 1);
      var queues: seq<seq<Msg>> := seq(n, i => []);
      assert queues[..n - 1] == seq(n - 1, i => []);
    }
  }

  lemma {:induction false} EmptyHands(n: nat)
    ensures HandIds(seq(n, i => Nothing)) == multiset{}
  {
    if n > 0 {
      EmptyHands(n - 1);
      assert seq(n, i => Nothing)[..n - 1] == seq(n - 1, i => Nothing);
    }
  }
}
