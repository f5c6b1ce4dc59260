/** The event dispatcher's queues and its pools of ready-made events. */
module Events {
  // An event from pool number pool, or one that was made for the occasion.
  datatype Id = Fast(pool: nat, n: nat) | Plain(n: nat)

  // A function that is called with an event; an event may bring its own.
  type Callback = nat

  datatype Own = NoCallback | Own(f: Callback)

  datatype Msg = Msg(id: Id, source: nat, event: int, own: Own)

  const NULL_SOURCE := 0
  const QUEUE_LIMIT := 10000

  // What a dispatcher thread has in hand: an event it has popped, or one
  // whose callbacks have run and that is still to be given back.
  datatype Hand = Nothing | Popped(msg: Msg) | Served(msg: Msg)

  datatype FastPool = FastPool(capacity: nat, free: seq<Id>)

  datatype State = State(queues: seq<seq<Msg>>, hands: seq<Hand>, pools: map<nat, FastPool>)

  ghost predicate Shaped(s: State) {
    |s.queues| == |s.hands| > 0
  }

  // ----- steps -----

  // Which queue an event goes to; pick stands for the random choice.
  function QueueOf(source: nat, pick: nat, n: nat): nat
    requires n > 0
  {
    (if source != NULL_SOURCE then source else pick) % n
  }

  function Fresh(k: nat, n: nat): seq<Id> {
    if n == 0 then [] else Fresh(k, n - 1) + [Fast(k, n - 1)]
  }

  // agc_queue_trypush whose result is not looked at.
  function GiveBack(p: FastPool, id: Id): FastPool {
    if |p.free| < p.capacity + 10 then p.(free := p.free + [id]) else p
  }

  function Returned(pools: map<nat, FastPool>, id: Id): map<nat, FastPool> {
    if id.Fast? && id.pool in pools then pools[id.pool := GiveBack(pools[id.pool], id)] else pools
  }

  function Initialised(s: State, k: nat, capacity: nat): State {
    s.(pools := s.pools[k := FastPool(capacity, Fresh(k, capacity))])
  }

  function Allocated(s: State, k: nat): State
    requires k in s.pools && s.pools[k].free != []
  {
    s.(pools := s.pools[k := s.pools[k].(free := s.pools[k].free[1..])])
  }

  function Fired(s: State, m: Msg, q: nat): State
    requires q < |s.queues|
  {
    s.(queues := s.queues[q := s.queues[q] + [m]])
  }

  function Taken(s: State, q: nat): State
    requires q < |s.queues| == |s.hands| && s.queues[q] != []
  {
    s.(queues := s.queues[q := s.queues[q][1..]], hands := s.hands[q := Popped(s.queues[q][0])])
  }

  function Delivered(s: State, q: nat): State
    requires q < |s.hands| && s.hands[q].Popped?
  {
    s.(hands := s.hands[q := Served(s.hands[q].msg)])
  }

  function Finished(s: State, q: nat): State
    requires q < |s.hands| && s.hands[q].Served?
  {
    s.(hands := s.hands[q := Nothing], pools := Returned(s.pools, s.hands[q].msg.id))
  }
}
