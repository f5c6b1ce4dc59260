/** The event dispatcher as it is changed in place. */
module EventDispatcher {
  import opened Events
  import opened EventRuns

  datatype Call = Call(f: Callback, msg: Msg)

  // The id whose subscribers get every event, and the length of the table
  // of subscriber lists.
  const ID_ALL := 0
  const ID_LIMIT := 1024

  // The ids that have a place in the table.
  predicate InTable(event: int) {
    0 <= event < ID_LIMIT
  }

  function Subscribers(nodes: map<int, seq<Callback>>, event: int): seq<Callback> {
    if event in nodes then nodes[event] else []
  }

  // Who is called with an event, and in which order.
  function Audience(nodes: map<int, seq<Callback>>, m: Msg): seq<Callback> {
    if m.own.Own? then [m.own.f] else Subscribers(nodes, m.event) + Subscribers(nodes, ID_ALL)
  }

  // ----- who is to be called, by the history of binds -----

  datatype Binding = Binding(event: int, f: Callback)

  // The callbacks bound to an id, newest first.
  ghost function NewestFirst(binds: seq<Binding>, event: int): seq<Callback> {
    if binds == [] then []
    else
      var n := |binds| - 1;
      (if binds[n].event == event then [binds[n].f] else []) + NewestFirst(binds[..n], event)
  }

  // An event's own callback; or those bound to its id and then those bound
  // to id 0.
  ghost function Due(binds: seq<Binding>, m: Msg): seq<Callback> {
    match m.own
    case Own(f) => [f]
    case NoCallback => NewestFirst(binds, m.event) + NewestFirst(binds, 0)
  }

  lemma {:induction false} NewestFirstMore(binds: seq<Binding>, b: Binding, event: int)
    ensures NewestFirst(binds + [b], event) == (if b.event == event then [b.f] else []) + NewestFirst(binds, event)
  {
    assert (binds + [b])[..|binds|] == binds;
  }

  // Place k of the list is the k-th bind from the end with this id: each
  // bind is there once, and a later one stands before an earlier one.
  lemma {:induction false} NewestFirstAt(binds: seq<Binding>, event: int, i: nat)
    requires i < |binds| && binds[i].event == event
    ensures var later := |NewestFirst(binds[i + 1..], event)|;
            later < |NewestFirst(binds, event)| && NewestFirst(binds, event)[later] == binds[i].f
  {
    hide NewestFirst;
    assert binds == binds[..i] + [binds[i]] + binds[i + 1..];
    NewestFirstJoin(binds[..i] + [binds[i]], binds[i + 1..], event);
    NewestFirstMore(binds[..i], binds[i], event);
  }

  lemma {:induction false} NewestFirstJoin(a: seq<Binding>, b: seq<Binding>, event: int)
    ensures NewestFirst(a + b, event) == NewestFirst(b, event) + NewestFirst(a, event)
  {
    if b == [] {
      assert a + b == a;
    } else {
      var n := |b| - 1;
      NewestFirstJoin(a, b[..n], event);
      assert a + b == (a + b[..n]) + [b[n]];
      NewestFirstMore(a + b[..n], b[n], event);
    }
  }

  // The lists are those of the binds so far, and each delivery's audience
  // is the one due when it began.
  ghost predicate History(nodes: map<int, seq<Callback>>, binds: seq<Binding>, known: seq<nat>, delivered: seq<Msg>,
      audience: seq<seq<Callback>>)
  {
    && (forall e: int :: Subscribers(nodes, e) == NewestFirst(binds, e))
    && |known| == |delivered| == |audience|
    && forall k | 0 <= k < |known| :: known[k] <= |binds| && audience[k] == Due(binds[..known[k]], delivered[k])
  }

  lemma {:induction false} HistoryBinds(nodes: map<int, seq<Callback>>, binds: seq<Binding>, known: seq<nat>,
      delivered: seq<Msg>, audience: seq<seq<Callback>>, event: int, f: Callback)
    requires History(nodes, binds, known, delivered, audience)
    ensures var nodes' := nodes[event := [f] + Subscribers(nodes, event)];
            History(nodes', binds + [Binding(event, f)], known, delivered, audience)
  {
    hide NewestFirst, Due;
    var nodes', binds' := nodes[event := [f] + Subscribers(nodes, event)], binds + [Binding(event, f)];
    forall e: int ensures Subscribers(nodes', e) == NewestFirst(binds', e) {
      NewestFirstMore(binds, Binding(event, f), e);
    }
    forall k | 0 <= k < |known| ensures binds'[..known[k]] == binds[..known[k]] {
    }
  }

  lemma {:induction false} HistoryBegins(nodes: map<int, seq<Callback>>, binds: seq<Binding>, known: seq<nat>,
      delivered: seq<Msg>, audience: seq<seq<Callback>>, m: Msg)
    requires History(nodes, binds, known, delivered, audience)
    ensures Audience(nodes, m) == Due(binds, m)
    ensures History(nodes, binds, known + [|binds|], delivered + [m], audience + [Audience(nodes, m)])
  {
    hide NewestFirst;
    assert binds[..|binds|] == binds;
  }

  // The delivery of m does not look outside the table.
  predicate Safe(m: Msg) {
    m.own.Own? || InTable(m.event)
  }

  // Stray: the table is accessed outside its bounds.
  datatype Outcome = Done | Refused | Stray

  // What the test of agc_event_bind and the access behind it come to.
  function BindOutcome(event: int): Outcome {
    if event > ID_LIMIT then Refused else if InTable(event) then Done else Stray
  }

  // The test lets exactly the negative ids and the table's length pass
  // that have no list.
  lemma {:induction false} BindExactly(event: int)
    ensures BindOutcome(event) == Stray <==> event < 0 || event == ID_LIMIT
    ensures BindOutcome(event) == Done <==> InTable(event)
  {
  }

  lemma BindStrays()
    ensures BindOutcome(1024) == BindOutcome(-1) == Stray
  {
  }

  // EVENT_ID_IS_INVALID, the test of events that are read from JSON.
  predicate IsInvalid(event: int) {
    event == ID_ALL || event >= ID_LIMIT
  }

  // An event without a callback of its own that passes this test is
  // delivered inside the table if and only if its id is not negative.
  lemma {:induction false} JsonIdExactly(m: Msg)
    requires !IsInvalid(m.event) && m.own.NoCallback?
    ensures Safe(m) <==> m.event >= 0
  {
  }

  // ----- the log of calls -----

  // The calls made so far, and for each the delivery it belongs to (at);
  // for each delivery its dispatcher (via) and who is to be called; for
  // each dispatcher its last delivery and who is still to be called.
  datatype Log = Log(calls: seq<Call>, at: seq<nat>, via: seq<nat>, audience: seq<seq<Callback>>, last: seq<int>,
    todo: seq<seq<Callback>>)

  // The callbacks called for delivery d, in order.
  ghost function Made(calls: seq<Call>, at: seq<nat>, d: nat): seq<Callback>
    requires |at| == |calls|
  {
    if calls == [] then []
    else
      var n := |calls| - 1;
      Made(calls[..n], at[..n], d) + (if at[n] == d then [calls[n].f] else [])
  }

  ghost predicate Sized(g: Log, n: nat, m: nat) {
    |g.at| == |g.calls| && |g.via| == |g.audience| == m && |g.last| == |g.todo| == n
  }

  // Who is still to be called for delivery d.
  ghost function Rest(g: Log, d: nat): seq<Callback>
    requires d < |g.via| && g.via[d] < |g.last| == |g.todo|
  {
    if g.last[g.via[d]] == d then g.todo[g.via[d]] else []
  }

  // Delivery d is its dispatcher's last or an earlier one, and a source's
  // deliveries have one dispatcher. What was called for it and what is
  // still to be called make its audience, in order.
  ghost predicate DeliveryOk(g: Log, n: nat, delivered: seq<Msg>, d: nat)
    requires Sized(g, n, |delivered|) && d < |delivered|
  {
    && g.via[d] < n && d <= g.last[g.via[d]]
    && (delivered[d].source != NULL_SOURCE ==> g.via[d] == delivered[d].source % n)
    && Made(g.calls, g.at, d) + Rest(g, d) == g.audience[d]
  }

  // Dispatcher q has calls to make only for the event it has in hand.
  ghost predicate HandOk(g: Log, hands: seq<Hand>, delivered: seq<Msg>, q: nat)
    requires Sized(g, |hands|, |delivered|) && q < |hands|
  {
    && -1 <= g.last[q] < |delivered|
    && (g.last[q] >= 0 ==> g.via[g.last[q]] == q)
    && (g.todo[q] != [] ==> g.last[q] >= 0 && hands[q] == Served(delivered[g.last[q]]))
  }

  // Each dispatcher's calls follow its deliveries.
  ghost predicate Logged(g: Log, hands: seq<Hand>, delivered: seq<Msg>) {
    && Sized(g, |hands|, |delivered|)
    && (forall d | 0 <= d < |delivered| :: DeliveryOk(g, |hands|, delivered, d))
    && (forall q | 0 <= q < |hands| :: HandOk(g, hands, delivered, q))
    && (forall i | 0 <= i < |g.calls| :: g.at[i] < |delivered| && g.calls[i].msg == delivered[g.at[i]])
    && (forall i, j | 0 <= i <= j < |g.at| && g.via[g.at[i]] == g.via[g.at[j]] :: g.at[i] <= g.at[j])
  }

  lemma {:induction false} MadeMore(calls: seq<Call>, at: seq<nat>, c: Call, e: nat, d: nat)
    requires |at| == |calls|
    ensures Made(calls + [c], at + [e], d) == Made(calls, at, d) + if e == d then [c.f] else []
  {
    assert (calls + [c])[..|calls|] == calls && (at + [e])[..|at|] == at;
  }

  lemma {:induction false} MadeNone(calls: seq<Call>, at: seq<nat>, d: nat)
    requires |at| == |calls| && d !in at
    ensures Made(calls, at, d) == []
  {
    if calls != [] {
      MadeNone(calls[..|calls| - 1], at[..|at| - 1], d);
    }
  }

  // Dispatcher q begins to deliver m.
  ghost function Begun(g: Log, q: nat, fs: seq<Callback>): Log
    requires q < |g.last| == |g.todo|
  {
    g.(via := g.via + [q], audience := g.audience + [fs], last := g.last[q := |g.via|], todo := g.todo[q := fs])
  }

  lemma {:induction false} LogBegins(g: Log, hands: seq<Hand>, delivered: seq<Msg>, q: nat, fs: seq<Callback>)
    requires Logged(g, hands, delivered) && q < |hands| && hands[q].Popped?
    requires hands[q].msg.source != NULL_SOURCE ==> q == hands[q].msg.source % |hands|
    ensures Logged(Begun(g, q, fs), hands[q := Served(hands[q].msg)], delivered + [hands[q].msg])
  {
    hide Made;
    var m, n := hands[q].msg, |delivered|;
    var g', hands', delivered' := Begun(g, q, fs), hands[q := Served(m)], delivered + [m];
    assert HandOk(g, hands, delivered, q);
    MadeNone(g.calls, g.at, n);
    forall d | 0 <= d < |delivered'| ensures DeliveryOk(g', |hands'|, delivered', d) {
      assert d < n ==> DeliveryOk(g, |hands|, delivered, d);
    }
    forall p | 0 <= p < |hands'| ensures HandOk(g', hands', delivered', p) {
      assert HandOk(g, hands, delivered, p);
    }
  }

  // Dispatcher q calls the next one.
  ghost function Called(g: Log, q: nat, m: Msg): Log
    requires q < |g.last| == |g.todo| && g.todo[q] != [] && g.last[q] >= 0
  {
    g.(calls := g.calls + [Call(g.todo[q][0], m)], at := g.at + [g.last[q]], todo := g.todo[q := g.todo[q][1..]])
  }

  lemma {:induction false} LogCalls(g: Log, hands: seq<Hand>, delivered: seq<Msg>, q: nat)
    requires Logged(g, hands, delivered) && q < |hands| && g.todo[q] != []
    ensures hands[q].Served? && g.last[q] >= 0 && Logged(Called(g, q, hands[q].msg), hands, delivered)
  {
    hide Made;
    assert HandOk(g, hands, delivered, q);
    var g', k := Called(g, q, hands[q].msg), g.last[q];
    assert g.todo[q] == [g.todo[q][0]] + g.todo[q][1..];
    forall d | 0 <= d < |delivered| ensures DeliveryOk(g', |hands|, delivered, d) {
      assert DeliveryOk(g, |hands|, delivered, d);
      MadeMore(g.calls, g.at, Call(g.todo[q][0], hands[q].msg), k, d);
    }
    forall p | 0 <= p < |hands| ensures HandOk(g', hands, delivered, p) {
      assert HandOk(g, hands, delivered, p);
    }
    CallsFollow(g, hands, delivered, k);
  }

  lemma {:induction false} CallsFollow(g: Log, hands: seq<Hand>, delivered: seq<Msg>, k: nat)
    requires Logged(g, hands, delivered) && k < |delivered| && g.via[k] < |hands| && k == g.last[g.via[k]]
    ensures forall i | 0 <= i < |g.at| && g.via[g.at[i]] == g.via[k] :: g.at[i] <= k
  {
    hide Made;
    forall i | 0 <= i < |g.at| && g.via[g.at[i]] == g.via[k] ensures g.at[i] <= k {
      assert DeliveryOk(g, |hands|, delivered, g.at[i]);
    }
  }

  // The hand of a dispatcher without calls to make changes.
  lemma {:induction false} LogHand(g: Log, hands: seq<Hand>, delivered: seq<Msg>, q: nat, h: Hand)
    requires Logged(g, hands, delivered) && q < |hands| && (hands[q].Served? ==> g.todo[q] == [])
    ensures g.todo[q] == [] && Logged(g, hands[q := h], delivered)
  {
    hide Made;
    assert HandOk(g, hands, delivered, q);
    var hands' := hands[q := h];
    forall p | 0 <= p < |hands| ensures HandOk(g, hands', delivered, p) {
      assert HandOk(g, hands, delivered, p);
    }
  }

  // id joins the end of its pool's free events; nothing else changes.
  ghost predicate FreeAgain(before: map<nat, FastPool>, after: map<nat, FastPool>, id: Id)
    requires id.Fast?
  {
    && id.pool in before
    && after == before[id.pool := FastPool(before[id.pool].capacity, before[id.pool].free + [id])]
  }

  class Dispatcher {
    var queues: seq<seq<Msg>>
    var hands: seq<Hand>
    var pools: map<nat, FastPool>
    var nodes: map<int, seq<Callback>>
    var calls: seq<Call>               // every call of a callback so far
    var todo: seq<seq<Callback>>       // whom each dispatcher has yet to call
    ghost var held: multiset<Id>       // the fast events callers have
    ghost var fired: seq<Msg>
    ghost var delivered: seq<Msg>
    ghost var at: seq<nat>
    ghost var via: seq<nat>
    ghost var audience: seq<seq<Callback>>
    ghost var last: seq<int>
    ghost var binds: seq<Binding>
    ghost var known: seq<nat>          // how many binds each delivery knew

    ghost function Record(): Log
      reads this
    {
      Log(calls, at, via, audience, last, todo)
    }

    ghost function Now(): System
      reads this
    {
      System(State(queues, hands, pools), held, fired, delivered)
    }

    ghost predicate Valid()
      reads this
    {
      Shaped(Now().state) && InOrder(Now()) && Conserved(Now()) && Logged(Record(), hands, delivered)
      && History(nodes, binds, known, delivered, audience)
    }

    constructor (n: nat)
      requires n > 0
      ensures Valid() && |queues| == n && pools == map[] && nodes == map[] && calls == [] && fired == [] &&
              held == multiset{} && binds == []
    {
      queues, hands, pools := seq(n, i => []), seq(n, i => Nothing), map[];
      nodes, calls, todo := map[], [], seq(n, i => []);
      held, fired, delivered := multiset{}, [], [];
      at, via, audience, last, binds, known := [], [], [], seq(n, i => -1), [], [];
      new;
      SourceOrder([], n);
      NothingOutside(n);
    }

    // agc_event_bind: the newest subscriber is called first. Nothing is
    // promised after a stray access; here the lists stay as they were.
    method Bind(event: int, f: Callback) returns (r: Outcome)
      requires Valid()
      modifies this`nodes, this`binds
      ensures Valid() && (r == Refused <==> event > ID_LIMIT) && (r == Stray <==> event < 0 || event == ID_LIMIT)
      ensures forall e: int ::
                Subscribers(nodes, e) == (if r == Done && e == event then [f] else []) + Subscribers(old(nodes), e)
      ensures r != Done ==> nodes == old(nodes)
      ensures binds == if r == Done then old(binds) + [Binding(event, f)] else old(binds)
    {
      if event > ID_LIMIT {
        return Refused;
      }
      if !InTable(event) {
        return Stray;
      }
      HistoryBinds(nodes, binds, known, delivered, audience, event, f);
      hide History;
      nodes := nodes[event := [f] + Subscribers(nodes, event)];
      binds := binds + [Binding(event, f)];
      r := Done;
    }

    // agc_event_fast_initial for a type below types: all the events of the
    // new pool are free, once each.
    method FastInitial(k: nat, capacity: nat, types: nat) returns (ok: bool)
      requires Valid()
      modifies this`pools
      ensures Valid() && ok == (k < types && k !in old(pools))
      ensures !ok ==> pools == old(pools)
      ensures ok ==> pools.Keys == old(pools).Keys + {k} && forall j | j in old(pools) :: pools[j] == old(pools)[j]
      ensures ok ==> pools[k].capacity == |pools[k].free| == capacity
      ensures ok ==> forall i | 0 <= i < capacity :: InPool(pools, Fast(k, i)) == 1
    {
      if k >= types || k in pools {
        return false;
      }
      ghost var s := Now();
      var free: seq<Id> := [];
      for i := 0 to capacity
        invariant free == Fresh(k, i) && |free| == i
      {
        if |free| < capacity + 10 {
          free := free + [Fast(k, i)];
        }
      }
      pools := pools[k := FastPool(capacity, free)];
      ok := true;
      FreshIds(k, capacity);
      Keeps(s, Initial(k, capacity));
    }

    // agc_event_fast_alloc: an event that was nowhere else; it fails only
    // if there is no such pool or all its events are out.
    method FastAlloc(k: nat) returns (ok: bool, id: Id)
      requires Valid()
      modifies this`pools, this`held
      ensures Valid() && (ok ==> k in old(pools) && id.Fast? && id.pool == k && id !in old(Outside(Now())))
      ensures ok ==> held == old(held) + multiset{id} && pools == old(pools)[k := pools[k]]
      ensures ok ==> old(pools)[k].free == [id] + pools[k].free
      ensures !ok ==> held == old(held) && pools == old(pools)
      ensures !ok && k in pools ==> forall i | 0 <= i < pools[k].capacity :: Fast(k, i) in Outside(Now())
    {
      hide InOrder, Conserved, Logged, History;
      ghost var s := Now();
      if k !in pools || pools[k].free == [] {
        if k in pools {
          AllOut(s, k);
        }
        return false, Plain(0);
      }
      id := pools[k].free[0];
      OnlyInPool(s, k, 0);
      pools := pools[k := pools[k].(free := pools[k].free[1..])];
      held := held + multiset{id};
      ok := true;
      Keeps(s, Alloc(k));
    }

    // agc_event_fast_release by its holder: the event is free again.
    method FastRelease(id: Id)
      requires Valid() && (id.Fast? ==> id in held)
      modifies this`pools, this`held
      ensures Valid() && held == old(held) - (if id.Fast? then multiset{id} else multiset{})
      ensures id.Fast? ==> FreeAgain(old(pools), pools, id)
      ensures !id.Fast? ==> pools == old(pools)
    {
      hide InOrder, Conserved, Logged, History;
      ghost var s := Now();
      if id.Fast? {
        IsOut(s, id);
        GivesBack(s, id.pool);
        pools := pools[id.pool := GiveBack(pools[id.pool], id)];
        held := held - multiset{id};
        ReleaseKeeps(s, id);
      }
    }

    // agc_event_fire, when the queue has room; pick is the random choice.
    // The event joins the end of what is on its way through one queue.
    method Fire(m: Msg, pick: nat) returns (q: nat)
      requires Valid() && |queues[QueueOf(m.source, pick, |queues|)]| < QUEUE_LIMIT && (m.id.Fast? ==> m.id in held)
      modifies this`queues, this`held, this`fired
      ensures Valid() && fired == old(fired) + [m] && held == old(held) - multiset{m.id}
      ensures q < |queues| == |old(queues)| && (m.source != NULL_SOURCE ==> q == m.source % |queues|)
      ensures Pending(Now().state, q) == old(Pending(Now().state, q)) + [m]
      ensures forall p | 0 <= p < |queues| && p != q :: Pending(Now().state, p) == old(Pending(Now().state, p))
    {
      hide InOrder, Conserved, Logged, History, QueueOf, Pending;
      ghost var s := Now();
      QueueFits(m.source, pick, |queues|);
      q := QueueOf(m.source, pick, |queues|);
      FireKeeps(s, m, pick);
      FirePending(s.state, m, q);
      queues := queues[q := queues[q] + [m]];
      held, fired := held - multiset{m.id}, fired + [m];
    }

    // agc_queue_trypop by dispatcher q: it gets its source's oldest event
    // that has not been delivered.
    method TryPop(q: nat) returns (ok: bool)
      requires Valid() && q < |hands| && hands[q].Nothing?
      modifies this`queues, this`hands
      ensures Valid() && |queues| == |old(queues)| && ok == (old(queues)[q] != [])
      ensures forall p | 0 <= p < |queues| :: Pending(Now().state, p) == old(Pending(Now().state, p))
      ensures hands == old(hands)[q := hands[q]] && (if ok then hands[q].Popped? else hands[q].Nothing?)
      ensures ok && hands[q].msg.source != NULL_SOURCE ==> NextOf(fired, delivered, hands[q].msg)
    {
      hide InOrder, Conserved, Logged, History;
      ok := queues[q] != [];
      if ok {
        ghost var s := Now();
        var pop := queues[q][0];
        queues := queues[q := queues[q][1..]];
        hands := hands[q := Popped(pop)];
        assert s.state.queues[q] == [pop] + queues[q];
        LogHand(Record(), s.state.hands, delivered, q, Popped(pop));
        PopKeeps(s, q);
        IsNext(Now(), q);
      }
    }

    // agc_event_deliver up to its first callback; a lock keeps the lists
    // as they are until the last one. Nothing is promised after a stray
    // access; here nothing changes.
    method Begin(q: nat) returns (r: Outcome)
      requires Valid() && q < |hands| && hands[q].Popped?
      modifies this`hands, this`todo, this`delivered, this`via, this`audience, this`last, this`known
      ensures Valid() && r != Refused && (r == Stray <==> !Safe(old(hands)[q].msg))
      ensures r == Stray ==> unchanged(this)
      ensures var m := old(hands)[q].msg;
              r == Done ==>
                && hands == old(hands)[q := Served(m)] && todo == old(todo)[q := Due(binds, m)]
                && delivered == old(delivered) + [m] && via == old(via) + [q]
                && audience == old(audience) + [Due(binds, m)] && known == old(known) + [|binds|]
                && (m.source != NULL_SOURCE ==> NextOf(fired, old(delivered), m))
    {
      hide InOrder, Conserved, Logged, Audience, NextOf, Due, History;
      if !Safe(hands[q].msg) {
        return Stray;
      }
      BeginSafe(q);
      r := Done;
    }

    method BeginSafe(q: nat)
      requires Valid() && q < |hands| && hands[q].Popped?
      modifies this`hands, this`todo, this`delivered, this`via, this`audience, this`last, this`known
      ensures Valid()
      ensures var m := old(hands)[q].msg;
              && hands == old(hands)[q := Served(m)] && todo == old(todo)[q := Due(binds, m)]
              && delivered == old(delivered) + [m] && via == old(via) + [q]
              && audience == old(audience) + [Due(binds, m)] && known == old(known) + [|binds|]
              && (m.source != NULL_SOURCE ==> NextOf(fired, old(delivered), m))
    {
      hide InOrder, Conserved, Logged, Audience, NextOf, Due, History, Begun;
      var m := hands[q].msg;
      var fs := Audience(nodes, m);
      ghost var g := BeginKeeps(Now(), Record(), nodes, binds, known, q, fs);
      todo := todo[q := fs];
      hands := hands[q := Served(m)];
      via, audience, last, known, delivered := g.via, g.audience, g.last, known + [|binds|], delivered + [m];
      assert Record() == g;
    }

    // One call of a callback by dispatcher q.
    method CallNext(q: nat)
      requires Valid() && q < |hands| == |todo| && todo[q] != []
      modifies this`calls, this`todo, this`at
      ensures Valid() && hands[q].Served? && todo == old(todo)[q := old(todo)[q][1..]]
      ensures calls == old(calls) + [Call(old(todo)[q][0], hands[q].msg)]
    {
      hide InOrder, Conserved, Logged, History;
      LoggedSizes(Record(), hands, delivered);
      LogCalls(Record(), hands, delivered, q);
      calls, at := calls + [Call(todo[q][0], hands[q].msg)], at + [last[q]];
      todo := todo[q := todo[q][1..]];
    }

    // A delivery that no other dispatcher interrupts, up to its end: its
    // whole audience is called, in order.
    method Serve(q: nat) returns (r: Outcome)
      requires Valid() && q < |hands| && hands[q].Popped?
      modifies this`hands, this`calls, this`todo, this`delivered, this`at, this`via, this`audience, this`last,
               this`known
      ensures Valid() && r != Refused && (r == Stray <==> !Safe(old(hands)[q].msg))
      ensures r == Stray ==> unchanged(this)
      ensures var m := old(hands)[q].msg;
              r == Done ==>
                && hands == old(hands)[q := Served(m)] && q < |todo| && todo[q] == []
                && delivered == old(delivered) + [m]
                && (m.source != NULL_SOURCE ==> NextOf(fired, old(delivered), m))
                && |calls| == |old(calls)| + |Due(binds, m)|
                && calls[..|old(calls)|] == old(calls)
                && forall i | 0 <= i < |Due(binds, m)| :: calls[|old(calls)| + i] == Call(Due(binds, m)[i], m)
    {
      hide InOrder, Conserved, Logged, Due, History;
      LoggedSizes(Record(), hands, delivered);
      r := Begin(q);
      if r == Stray {
        return;
      }
      LoggedSizes(Record(), hands, delivered);
      CallAll(q, Due(binds, hands[q].msg));
    }

    method CallAll(q: nat, ghost fs: seq<Callback>)
      requires Valid() && q < |hands| == |todo| && todo[q] == fs && hands[q].Served?
      modifies this`calls, this`todo, this`at
      ensures Valid() && |todo| == |hands| && todo[q] == []
      ensures |calls| == |old(calls)| + |fs| && calls[..|old(calls)|] == old(calls)
      ensures forall i | 0 <= i < |fs| :: calls[|old(calls)| + i] == Call(fs[i], hands[q].msg)
    {
      hide InOrder, Conserved, Logged, History;
      ghost var i := 0;
      while todo[q] != []
        invariant Valid() && i <= |fs| && |todo| == |hands| && todo[q] == fs[i..]
        invariant |calls| == |old(calls)| + i && calls[..|old(calls)|] == old(calls)
        invariant forall k | 0 <= k < i :: calls[|old(calls)| + k] == Call(fs[k], hands[q].msg)
        decreases |todo[q]|
      {
        CallNext(q);
        i := i + 1;
      }
    }

    // The end of agc_event_deliver: the event goes back to its pool.
    method Finish(q: nat)
      requires Valid() && q < |hands| == |todo| && hands[q].Served? && todo[q] == []
      modifies this`hands, this`pools
      ensures Valid() && hands == old(hands)[q := Nothing]
      ensures var id := old(hands)[q].msg.id;
              && (!id.Fast? ==> pools == old(pools))
              && (id.Fast? ==> FreeAgain(old(pools), pools, id) && id !in Outside(Now()))
    {
      hide InOrder, Conserved, Logged, History;
      ghost var s := Now();
      var id := hands[q].msg.id;
      InHandIsOut(s, q);
      if id.Fast? && id.pool in pools {
        GivesBack(s, id.pool);
        pools := pools[id.pool := GiveBack(pools[id.pool], id)];
      }
      LogHand(Record(), hands, delivered, q, Nothing);
      hands := hands[q := Nothing];
      FinishKeeps(s, q);
      if id.Fast? {
        OnlyInPool(Now(), id.pool, |pools[id.pool].free| - 1);
      }
    }

    // ----- runs -----

    // What is on its way can be delivered inside the table.
    ghost predicate AllSafe()
      requires Shaped(Now().state)
      reads this
    {
      SafePending(Now().state)
    }

    // The next thing that a dispatcher, a source or a caller does, if it is
    // possible; have: the fast events that callers have.
    method Perform(a: Action, have: multiset<Id>) returns (r: Outcome, have': multiset<Id>)
      requires Valid() && have == held
      modifies this
      ensures Valid() && have' == held && |queues| == |old(queues)|
      ensures r == Stray ==> unchanged(this) && !SafeAction(a, old(hands))
      ensures old(AllSafe()) && (a.Send? ==> Safe(a.m)) ==> AllSafe()
    {
      hide InOrder, Conserved, Logged, History, SafePending;
      if a.Take? || a.Start? || a.CallOne? || a.End? {
        r := PerformDispatch(a);
        have' := have;
      } else {
        r, have' := PerformCall(a, have);
      }
    }

    method PerformCall(a: Action, have: multiset<Id>) returns (r: Outcome, have': multiset<Id>)
      requires Valid() && have == held && !(a.Take? || a.Start? || a.CallOne? || a.End?)
      modifies this
      ensures Valid() && have' == held && |queues| == |old(queues)|
      ensures r == Stray ==> unchanged(this) && !SafeAction(a, old(hands))
      ensures old(AllSafe()) && (a.Send? ==> Safe(a.m)) ==> AllSafe()
    {
      hide InOrder, Conserved, Logged, History, SafePending, Outside, InPool;
      ghost var s := Now().state;
      r, have' := Done, have;
      match a {
        case Subscribe(event, f) =>
          r := Bind(event, f);
        case Make(k, capacity, types) =>
          var ok := FastInitial(k, capacity, types);
        case Get(k) =>
          var ok, id := FastAlloc(k);
          have' := if ok then have + multiset{id} else have;
        case Put(id) =>
          if id.Fast? && id in have {
            FastRelease(id);
            have' := have - multiset{id};
          }
        case Send(m, pick) =>
          if |queues[QueueOf(m.source, pick, |queues|)]| < QUEUE_LIMIT && (m.id.Fast? ==> m.id in have) {
            var q := Fire(m, pick);
            have' := have - multiset{m.id};
            SafeMore(s, Now().state, q, m);
            return;
          }
      }
      SafeSame(s, Now().state);
    }

    method PerformDispatch(a: Action) returns (r: Outcome)
      requires Valid() && (a.Take? || a.Start? || a.CallOne? || a.End?)
      modifies this
      ensures Valid() && held == old(held) && |queues| == |old(queues)|
      ensures r == Stray ==> unchanged(this) && !SafeAction(a, old(hands))
      ensures old(AllSafe()) ==> AllSafe()
    {
      hide InOrder, Conserved, Logged, History, SafePending;
      ghost var s := Now().state;
      LoggedSizes(Record(), hands, delivered);
      r := Done;
      if a.q >= |hands| {
        return;
      }
      if a.Take? && hands[a.q].Nothing? {
        var ok := TryPop(a.q);
        SafeSame(s, Now().state);
      } else if a.Start? && hands[a.q].Popped? {
        r := Begin(a.q);
        if r == Done {
          SafeLess(s, Now().state, a.q, hands[a.q]);
        }
      } else if a.CallOne? && todo[a.q] != [] {
        CallNext(a.q);
      } else if a.End? && hands[a.q].Served? && todo[a.q] == [] {
        Finish(a.q);
        SafeLess(s, Now().state, a.q, Nothing);
      }
    }

    // Any interleaving of subscribers, sources, callers and dispatchers,
    // one call of a callback at a time, up to a stray access. No access is
    // stray if no action is; callbacks see each source's events in the
    // order of firing, and of each delivery the whole audience is called.
    method Play(schedule: seq<Action>) returns (r: Outcome)
      requires Valid() && held == multiset{}
      requires forall q | 0 <= q < |queues| :: Pending(Now().state, q) == []
      modifies this
      ensures Valid() && |queues| == |old(queues)|
      ensures (forall a | a in schedule :: Harmless(a)) ==> r != Stray
      ensures forall i, j | 0 <= i < j < |calls| :: Follows(i, j)
      ensures forall k | 0 <= k < |delivered| :: WholeOrBusy(k)
    {
      hide InOrder, Conserved, Logged, History;
      var have: multiset<Id> := multiset{};
      r := Done;
      var n := 0;
      while n < |schedule|
        invariant n <= |schedule| && Valid() && have == held && |queues| == |old(queues)|
        invariant (forall a | a in schedule :: Harmless(a)) ==> AllSafe() && r != Stray
      {
        assert schedule[n] in schedule;
        StartsSafe(schedule[n]);
        r, have := Perform(schedule[n], have);
        if r == Stray {
          break;
        }
        n := n + 1;
      }
      forall i, j | 0 <= i < j < |calls| ensures Follows(i, j) {
        FollowsAlways(i, j);
      }
      forall k | 0 <= k < |delivered| ensures WholeOrBusy(k) {
        WholeAudience(this, k);
      }
    }

    lemma {:induction false} StartsSafe(a: Action)
      requires Valid()
      ensures AllSafe() && Harmless(a) ==> SafeAction(a, hands)
    {
      hide InOrder, Conserved, Logged, History;
      if a.Start? && a.q < |hands| && hands[a.q].Popped? {
        assert hands[a.q].msg in Pending(Now().state, a.q);
      }
    }

    // Of two calls with events of one source, the earlier has the event
    // that was fired no later, and the same one only in one delivery.
    ghost predicate Follows(i: nat, j: nat)
      requires i < j < |calls|
      reads this
    {
      calls[i].msg.source == calls[j].msg.source != NULL_SOURCE ==>
        && |at| == |calls| && at[i] < |delivered| && at[j] < |delivered|
        && var all := Only(fired, calls[i].msg.source);
           var p, q := Place(delivered, at[i]), Place(delivered, at[j]);
           p <= q < |all| && all[p] == calls[i].msg && all[q] == calls[j].msg && (p == q ==> at[i] == at[j])
    }

    lemma {:induction false} FollowsAlways(i: nat, j: nat)
      requires Valid() && i < j < |calls|
      ensures Follows(i, j)
    {
      hide InOrder, Conserved, Logged, History, Only, Place;
      if calls[i].msg.source == calls[j].msg.source != NULL_SOURCE {
        CallOrder(this, i, j);
      }
    }

    // For delivery k all that were due when it began were called, once each
    // and in order, unless its dispatcher still has calls to make.
    ghost predicate WholeOrBusy(k: nat)
      requires k < |delivered|
      reads this
    {
      && |at| == |calls| && |via| == |known| == |delivered| && via[k] < |todo| && known[k] <= |binds|
      && (todo[via[k]] == [] ==> Made(calls, at, k) == Due(binds[..known[k]], delivered[k]))
    }
  }

  datatype Action =
    | Subscribe(event: int, f: Callback)
    | Make(k: nat, capacity: nat, types: nat)
    | Get(k: nat)
    | Put(id: Id)
    | Send(m: Msg, pick: nat)
    | Take(q: nat)
    | Start(q: nat)
    | CallOne(q: nat)
    | End(q: nat)

  ghost predicate SafePending(s: State)
    requires Shaped(s)
  {
    forall q, m | 0 <= q < |s.queues| && m in Pending(s, q) :: Safe(m)
  }

  lemma {:induction false} SafeSame(s: State, s': State)
    requires Shaped(s) && Shaped(s') && |s.queues| == |s'.queues|
    requires forall q | 0 <= q < |s.queues| :: Pending(s', q) == Pending(s, q)
    ensures SafePending(s) ==> SafePending(s')
  {
  }

  lemma {:induction false} SafeMore(s: State, s': State, q: nat, m: Msg)
    requires Shaped(s) && Shaped(s') && |s.queues| == |s'.queues| && q < |s.queues|
    requires Pending(s', q) == Pending(s, q) + [m]
    requires forall p | 0 <= p < |s.queues| && p != q :: Pending(s', p) == Pending(s, p)
    ensures SafePending(s) && Safe(m) ==> SafePending(s')
  {
    hide Pending, Safe;
  }

  lemma {:induction false} SafeLess(s: State, s': State, q: nat, h: Hand)
    requires Shaped(s) && q < |s.queues| && !h.Popped? && s'.queues == s.queues && s'.hands == s.hands[q := h]
    ensures SafePending(s) ==> SafePending(s')
  {
    hide Safe;
    assert forall m | m in s.queues[q] :: m in Pending(s, q);
    assert forall p | 0 <= p < |s.queues| && p != q :: Pending(s', p) == Pending(s, p);
  }

  // The action's access of the table, if it has one, is inside it.
  ghost predicate SafeAction(a: Action, hands: seq<Hand>) {
    match a
    case Subscribe(event, _) => event != ID_LIMIT && event >= 0
    case Start(q) => q < |hands| && hands[q].Popped? ==> Safe(hands[q].msg)
    case _ => true
  }

  // No id without a place in the table is bound or sent.
  ghost predicate Harmless(a: Action) {
    match a
    case Subscribe(event, _) => event != ID_LIMIT && event >= 0
    case Send(m, _) => Safe(m)
    case _ => true
  }

  // Of m's source, m is the first fired event that has not been delivered.
  ghost predicate NextOf(fired: seq<Msg>, delivered: seq<Msg>, m: Msg) {
    var done, all := Only(delivered, m.source), Only(fired, m.source);
    |done| < |all| && done == all[..|done|] && all[|done|] == m
  }

  lemma {:induction false} LoggedSizes(g: Log, hands: seq<Hand>, delivered: seq<Msg>)
    requires Logged(g, hands, delivered)
    ensures Sized(g, |hands|, |delivered|)
  {
  }

  lemma {:induction false} Keeps(s: System, step: Step)
    requires InOrder(s) && Conserved(s) && Enabled(s, step)
    ensures InOrder(Do(s, step)) && Conserved(Do(s, step)) && |Do(s, step).state.queues| == |s.state.queues|
  {
    hide Conserved;
    DoInOrder(s, step);
    DoConserved(s, step);
  }

  lemma {:induction false} ServeKeeps(s: System, q: nat)
    requires Shaped(s.state) && InOrder(s) && Conserved(s) && q < |s.state.hands| && s.state.hands[q].Popped?
    ensures var m := s.state.hands[q].msg;
            var s' := System(State(s.state.queues, s.state.hands[q := Served(m)], s.state.pools), s.held, s.fired,
              s.delivered + [m]);
            InOrder(s') && Conserved(s')
  {
    hide InOrder, Conserved;
    Keeps(s, Serve(q));
  }

  lemma {:induction false} BeginKeeps(s: System, g: Log, nodes: map<int, seq<Callback>>, binds: seq<Binding>,
      known: seq<nat>, q: nat, fs: seq<Callback>) returns (g': Log)
    requires Shaped(s.state) && InOrder(s) && Conserved(s) && q < |s.state.hands| && s.state.hands[q].Popped?
    requires Logged(g, s.state.hands, s.delivered) && History(nodes, binds, known, s.delivered, g.audience)
    requires fs == Audience(nodes, s.state.hands[q].msg)
    ensures var m := s.state.hands[q].msg;
            && fs == Due(binds, m) && (m.source != NULL_SOURCE ==> NextOf(s.fired, s.delivered, m))
            && q < |g.todo| && |g.last| == |g.todo| && g' == Begun(g, q, fs)
            && g' == Log(g.calls, g.at, g.via + [q], g.audience + [fs], g'.last, g.todo[q := fs])
    ensures var m := s.state.hands[q].msg;
            var hands, delivered := s.state.hands[q := Served(m)], s.delivered + [m];
            var s' := System(State(s.state.queues, hands, s.state.pools), s.held, s.fired, delivered);
            && InOrder(s') && Conserved(s') && Logged(g', hands, delivered)
            && History(nodes, binds, known + [|binds|], delivered, g'.audience)
  {
    hide InOrder, Conserved, Logged, Audience, NextOf, Due, History;
    LoggedSizes(g, s.state.hands, s.delivered);
    g' := Begun(g, q, fs);
    IsNext(s, q);
    HistoryBegins(nodes, binds, known, s.delivered, g.audience, s.state.hands[q].msg);
    LogBegins(g, s.state.hands, s.delivered, q, fs);
    ServeKeeps(s, q);
  }

  lemma {:induction false} FinishKeeps(s: System, q: nat)
    requires Shaped(s.state) && InOrder(s) && Conserved(s) && q < |s.state.hands| && s.state.hands[q].Served?
    ensures var pools := Returned(s.state.pools, s.state.hands[q].msg.id);
            var s' := System(State(s.state.queues, s.state.hands[q := Nothing], pools), s.held, s.fired, s.delivered);
            InOrder(s') && Conserved(s')
  {
    hide InOrder, Conserved;
    Keeps(s, Finish(q));
  }

  lemma {:induction false} ReleaseKeeps(s: System, id: Id)
    requires Shaped(s.state) && InOrder(s) && Conserved(s) && id.Fast? && id in s.held
    ensures var s' := System(State(s.state.queues, s.state.hands, Returned(s.state.pools, id)), s.held - multiset{id},
              s.fired, s.delivered);
            InOrder(s') && Conserved(s')
  {
    hide InOrder, Conserved;
    Keeps(s, Release(id));
  }

  lemma {:induction false} FireKeeps(s: System, m: Msg, pick: nat)
    requires Shaped(s.state) && InOrder(s) && Conserved(s) && (m.id.Fast? ==> m.id in s.held)
    requires |s.state.queues[QueueOf(m.source, pick, |s.state.queues|)]| < QUEUE_LIMIT
    ensures var q := QueueOf(m.source, pick, |s.state.queues|);
            var s' := System(State(s.state.queues[q := s.state.queues[q] + [m]], s.state.hands, s.state.pools),
              s.held - multiset{m.id}, s.fired + [m], s.delivered);
            InOrder(s') && Conserved(s')
  {
    hide InOrder, Conserved;
    Keeps(s, Fire(m, pick));
  }

  lemma {:induction false} QueueFits(source: nat, pick: nat, n: nat)
    requires n > 0
    ensures QueueOf(source, pick, n) < n && (source != NULL_SOURCE ==> QueueOf(source, pick, n) == source % n)
  {
  }

  lemma {:induction false} FirePending(s: State, m: Msg, q: nat)
    requires q < |s.queues| == |s.hands|
    ensures var s' := State(s.queues[q := s.queues[q] + [m]], s.hands, s.pools);
            && Pending(s', q) == Pending(s, q) + [m]
            && forall p | 0 <= p < |s.queues| && p != q :: Pending(s', p) == Pending(s, p)
  {
  }

  lemma {:induction false} PopKeeps(s: System, q: nat)
    requires Shaped(s.state) && InOrder(s) && Conserved(s) && q < |s.state.hands|
    requires s.state.hands[q].Nothing? && s.state.queues[q] != []
    ensures var ms := s.state.queues[q];
            var s' := System(State(s.state.queues[q := ms[1..]], s.state.hands[q := Popped(ms[0])], s.state.pools),
              s.held, s.fired, s.delivered);
            InOrder(s') && Conserved(s')
  {
    hide InOrder, Conserved;
    Keeps(s, Pop(q));
  }

  lemma {:induction false} IsNext(s: System, q: nat)
    requires InOrder(s) && q < |s.state.hands| && s.state.hands[q].Popped?
    ensures var m := s.state.hands[q].msg;
            m.source != NULL_SOURCE ==> NextOf(s.fired, s.delivered, m) && q == m.source % |s.state.hands|
  {
    hide Only;
    var m := s.state.hands[q].msg;
    assert m in Pending(s.state, q);
    assert Pending(s.state, q) == [m] + s.state.queues[q];
    OnlyOne(m, m.source);
    OnlyConcat([m], s.state.queues[q], m.source);
  }

  // A free event is nowhere else.
  lemma {:induction false} OnlyInPool(s: System, k: nat, i: nat)
    requires Conserved(s) && k in s.state.pools && i < |s.state.pools[k].free|
    ensures var id := s.state.pools[k].free[i]; id.Fast? && id.pool == k && id !in Outside(s)
  {
    hide Outside;
    var id := s.state.pools[k].free[i];
    assert OfPool(k, s.state.pools[k].free);
    assert id in multiset(s.state.pools[k].free);
    assert InPool(s.state.pools, id) + Outside(s)[id] <= 1;
  }

  lemma {:induction false} AllOut(s: System, k: nat)
    requires Conserved(s) && k in s.state.pools && s.state.pools[k].free == []
    ensures forall i | 0 <= i < s.state.pools[k].capacity :: Fast(k, i) in Outside(s)
  {
    hide Outside;
    forall i | 0 <= i < s.state.pools[k].capacity ensures Fast(k, i) in Outside(s) {
      assert InPool(s.state.pools, Fast(k, i)) + Outside(s)[Fast(k, i)] == 1;
    }
  }

  // A held event's pool exists.
  lemma {:induction false} IsOut(s: System, id: Id)
    requires Conserved(s) && id.Fast? && id in s.held
    ensures id.pool in s.state.pools && id in Outside(s)
  {
    hide QueueIds, HandIds;
    assert id in Outside(s);
    assert InPool(s.state.pools, id) + Outside(s)[id] <= 1;
  }

  lemma {:induction false} InHandIsOut(s: System, q: nat)
    requires Conserved(s) && q < |s.state.hands| && s.state.hands[q].Served?
    ensures s.state.hands[q].msg.id.Fast? ==> s.state.hands[q].msg.id.pool in s.state.pools
  {
    hide QueueIds, HandIds;
    var id := s.state.hands[q].msg.id;
    HandIdsUpdate(s.state.hands, q, Nothing);
    assert (HandIds(s.state.hands[q := Nothing]) + multiset{id})[id] == (HandIds(s.state.hands) + multiset{})[id];
    if id.Fast? {
      assert id in Outside(s);
      assert InPool(s.state.pools, id) + Outside(s)[id] <= 1;
    }
  }

  // ----- what subscribers see -----

  // Where, among the deliveries of its source, delivery d stands.
  ghost function Place(delivered: seq<Msg>, d: nat): nat
    requires d < |delivered|
  {
    |Only(delivered[..d], delivered[d].source)|
  }

  lemma {:induction false} PlaceOf(delivered: seq<Msg>, d: nat)
    requires d < |delivered|
    ensures var only := Only(delivered, delivered[d].source);
            Place(delivered, d) < |only| && only[Place(delivered, d)] == delivered[d]
  {
    hide Only;
    var m := delivered[d];
    assert delivered == delivered[..d] + [m] + delivered[d + 1..];
    OnlyOne(m, m.source);
    OnlyConcat(delivered[..d], [m], m.source);
    OnlyConcat(delivered[..d] + [m], delivered[d + 1..], m.source);
  }

  lemma {:induction false} PlacesGrow(delivered: seq<Msg>, d: nat, e: nat)
    requires d < e < |delivered| && delivered[d].source == delivered[e].source
    ensures Place(delivered, d) < Place(delivered, e)
  {
    hide Only;
    var m := delivered[d];
    assert delivered[..e] == delivered[..d] + [m] + delivered[d + 1..e];
    OnlyOne(m, m.source);
    OnlyConcat(delivered[..d], [m], m.source);
    OnlyConcat(delivered[..d] + [m], delivered[d + 1..e], m.source);
  }

  // Callbacks see a source's events in the order in which they were
  // fired: of two calls with events of one source, the earlier call's
  // event stands no later among the fired ones, and at the same place
  // only if both calls belong to one delivery.
  lemma {:induction false} CallOrder(d: Dispatcher, i: nat, j: nat)
    requires d.Valid() && i < j < |d.calls|
    requires d.calls[i].msg.source == d.calls[j].msg.source != NULL_SOURCE
    ensures |d.at| == |d.calls| && d.at[i] < |d.delivered| && d.at[j] < |d.delivered|
    ensures var all := Only(d.fired, d.calls[i].msg.source);
            var p, q := Place(d.delivered, d.at[i]), Place(d.delivered, d.at[j]);
            && p <= q < |all| && all[p] == d.calls[i].msg && all[q] == d.calls[j].msg
            && (p == q ==> d.at[i] == d.at[j])
  {
    hide Only, Place, Made, Conserved;
    OneDispatcher(d.Record(), d.hands, d.delivered, i, j);
    PlaceOf(d.delivered, d.at[i]);
    PlaceOf(d.delivered, d.at[j]);
    if d.at[i] != d.at[j] {
      PlacesGrow(d.delivered, d.at[i], d.at[j]);
    }
  }

  lemma {:induction false} OneDispatcher(g: Log, hands: seq<Hand>, delivered: seq<Msg>, i: nat, j: nat)
    requires Logged(g, hands, delivered) && i < j < |g.calls|
    requires g.calls[i].msg.source == g.calls[j].msg.source != NULL_SOURCE
    ensures |g.at| == |g.calls| && g.at[i] <= g.at[j] < |delivered|
    ensures delivered[g.at[i]] == g.calls[i].msg && delivered[g.at[j]] == g.calls[j].msg
  {
    hide Made;
    assert DeliveryOk(g, |hands|, delivered, g.at[i]) && DeliveryOk(g, |hands|, delivered, g.at[j]);
  }

  // For a delivery whose dispatcher has no call left to make, the callbacks
  // called are those due by the binds known when it began.
  lemma {:induction false} WholeAudience(d: Dispatcher, k: nat)
    requires d.Valid() && k < |d.delivered|
    ensures |d.at| == |d.calls| && |d.via| == |d.known| == |d.delivered|
    ensures d.via[k] < |d.todo| && d.known[k] <= |d.binds|
    ensures d.todo[d.via[k]] == [] ==> Made(d.calls, d.at, k) == Due(d.binds[..d.known[k]], d.delivered[k])
  {
    hide Made, InOrder, Conserved, Due, NewestFirst;
    assert DeliveryOk(d.Record(), |d.hands|, d.delivered, k);
  }
}
