/** The timer service: a red-black tree of events keyed by wrapped deadlines. */
module Timer {
  import opened RbShape
  import opened RbSplice
  import opened RbTree
  import opened TimerQueue

  class Timers {
    const tree: RbTree
    var currentTime: int
    ghost var live: seq<Entry>   // the armed timers in firing order
    ghost var next: nat          // how many times a timer has been armed
    ghost var events: set<Node>  // the events handed in so far

    // The tree holds exactly the armed timers, in order.
    ghost predicate Linked()
      reads this`live, this`next, tree, tree.sentinel`red,
            tree.nodes`left, tree.nodes`right, tree.nodes`parent, tree.nodes`red, (set n | n in tree.Order())`key
    {
      && tree.Valid() && tree.policy == ByTimer && Queue(live, next)
      && Matches(tree.Order(), KeysOf(tree.Order()), live)
    }

    // The events' flags say which of them are in the tree.
    ghost predicate FlagsOk()
      reads this, tree, events
    {
      && tree.sentinel !in events && tree.nodes <= events + {tree.sentinel}
      && forall e | e in events :: e.timerSet <==> e in tree.nodes
    }

    ghost predicate Valid()
      reads this, tree, tree.nodes, tree.sentinel, events, set n | n in tree.Order()
    {
      Linked() && FlagsOk()
    }

    // What is left of FlagsOk if callers also delete timers themselves: the
    // flag of an event in the tree is set, and an event outside the tree
    // whose flag is set has the links that a deletion leaves.
    ghost predicate Tracked()
      reads this, tree, events
    {
      && tree.sentinel !in events && tree.nodes <= events + {tree.sentinel}
      && (forall e | e in events && e in tree.nodes :: e.timerSet)
      && (forall e | e in events && e !in tree.nodes && e.timerSet :: Wiped(e))
    }

    ghost predicate Wiped(e: Node)
      reads e
    {
      e.left == null && e.right == null && e.parent == null && e.key == 0
    }

    ghost predicate Kept()
      reads this, tree, tree.nodes, tree.sentinel, events, set n | n in tree.Order()
    {
      Linked() && Tracked()
    }

    // The events whose flag is set although the tree does not hold them.
    ghost function Stale(): set<Node>
      reads this, tree, events
    {
      set e | e in events && e.timerSet && e !in tree.nodes
    }

    constructor (sentinel: Node)
      modifies sentinel`red
      ensures Valid() && live == [] && next == 0 && events == {} && fresh(tree) && tree.sentinel == sentinel
    {
      tree := new RbTree(sentinel, ByTimer);
      currentTime, live, next, events := 0, [], 0, {};
    }

    // Takes ev out of the tree.
    method Unlink(ev: Node)
      requires Linked() && ev in tree.Order()
      modifies this`live, tree`root, tree`shape, tree`nodes,
               tree.nodes`left, tree.nodes`right, tree.nodes`parent, tree.nodes`red, ev`key
      ensures Linked() && live == Drop(old(live), ev) && tree.nodes == old(tree.nodes) - {ev}
      ensures ev !in tree.Order() && Wiped(ev)
    {
      hide RbTree.Valid, Matches, Queue, Drop, KeysOf, Without;
      tree.Contents();
      ghost var order, ks := tree.Order(), KeysOf(tree.Order());
      ghost var at := tree.Delete(ev);
      MatchesDrop(order, ks, live, next, at, ev, tree.Order());
      live := Drop(live, ev);
      tree.Contents();
    }

    // Takes ev out of the tree but leaves its flag as it is, so that ev is
    // stale from then on.
    method DelTimer(ev: Node)
      requires Kept() && ev in tree.Order()
      modifies this`live, tree`root, tree`shape, tree`nodes,
               tree.nodes`left, tree.nodes`right, tree.nodes`parent, tree.nodes`red, ev`key
      ensures Kept() && live == Drop(old(live), ev) && tree.nodes == old(tree.nodes) - {ev}
      ensures ev in events && ev.timerSet && ev !in tree.Order() && Wiped(ev)
      ensures Stale() == old(Stale()) + {ev} && !FlagsOk()
    {
      hide Linked, Drop;
      NotArmed(ev);
      Unlink(ev);
    }

    // Puts ev into the tree under the key of its deadline.
    method PutTimer(ev: Node, ghost due: int, ghost lo: int)
      requires Linked() && ev !in tree.nodes && ev.key == KeyOf(due)
      requires Fits(live, lo) && lo <= due < lo + HALF_RANGE
      modifies this`live, this`next, tree`root, tree`shape, tree`nodes,
               tree.nodes`left, tree.nodes`right, tree.nodes`parent, tree.nodes`red,
               ev`left, ev`right, ev`parent, ev`red
      ensures Linked() && live == Place(old(live), Entry(ev, due, old(next))) && next == old(next) + 1
      ensures tree.nodes == old(tree.nodes) + {ev}
    {
      hide RbTree.Valid, Matches, Queue, Place, KeysOf, Fits, Ordered, InWindow, SplitsAt, KeyOf;
      tree.Contents();
      ghost var order, ks := tree.Order(), KeysOf(tree.Order());
      MatchesOrdered(order, ks, live, next, lo);
      RankIsDistance(lo, due);
      ghost var at := tree.Insert(ev, KeyOf(lo));
      MatchesPlace(order, ks, live, Entry(ev, due, next), at, lo);
      live := Place(live, Entry(ev, due, next));
      next := next + 1;
      tree.Contents();
    }

    method Clear(ev: Node)
      requires Kept() && ev != tree.sentinel && (ev.timerSet <==> ev in tree.Order())
      modifies this`live, tree`root, tree`shape, tree`nodes,
               tree.nodes`left, tree.nodes`right, tree.nodes`parent, tree.nodes`red, ev`key
      ensures Kept() && live == Drop(old(live), ev) && tree.nodes == old(tree.nodes) - {ev}
      ensures forall e | e != ev :: e in Stale() <==> e in old(Stale())
      ensures ev !in old(Stale()) && ev !in tree.Order()
    {
      hide Linked, Drop;
      NotArmed(ev);
      if ev.timerSet {
        DelTimer(ev);
      }
    }

    // Arms ev to fire timer milliseconds from now, given in microseconds.
    method AddTimer(ev: Node, timer: Key, now: nat, ghost lo: int)
      requires Kept() && ev != tree.sentinel && (ev.timerSet <==> ev in tree.Order())
      requires lo <= now / 1000 + timer < lo + HALF_RANGE && Fits(Drop(live, ev), lo)
      modifies this, tree`root, tree`shape, tree`nodes,
               tree.nodes`left, tree.nodes`right, tree.nodes`parent, tree.nodes`red,
               ev`left, ev`right, ev`parent, ev`red, ev`key, ev`timerSet
      ensures Kept() && Stale() == old(Stale()) && (old(FlagsOk()) ==> FlagsOk())
      ensures events == old(events) + {ev} && currentTime == now && tree.nodes == old(tree.nodes) + {ev}
      ensures live == Place(Drop(old(live), ev), Entry(ev, now / 1000 + timer, old(next))) && next == old(next) + 1
    {
      hide Linked, Queue, Place, Drop, Fits;
      currentTime := now;
      var currentMs := currentTime / 1000;
      var key := (currentMs + timer) % KEY_RANGE;
      Clear(ev);
      ev.key := key;
      PutTimer(ev, currentMs + timer, lo);
      ev.timerSet := true;
      events := events + {ev};
    }

    lemma {:induction false} NotArmed(ev: Node)
      requires Linked()
      ensures ev !in tree.Order() ==> Drop(live, ev) == live
      ensures ev in tree.Order() <==> ev in tree.nodes && ev != tree.sentinel
    {
      tree.Contents();
      if ev !in tree.Order() {
        forall i | 0 <= i < |live| ensures live[i].ev != ev {
          assert tree.Order()[i] == live[i].ev;
        }
        DropAbsent(live, ev);
      }
    }

    // An event's flag is set exactly when the tree holds its timer.
    lemma {:induction false} FlagMeaning(ev: Node)
      requires Valid() && ev in events
      ensures ev.timerSet <==> ev in tree.Order()
      ensures ev.timerSet <==> exists i :: 0 <= i < |live| && live[i].ev == ev
    {
      tree.Contents();
      if ev in tree.Order() {
        var i :| 0 <= i < |tree.Order()| && tree.Order()[i] == ev;
        assert live[i].ev == ev;
      }
    }

    // While the flags are not kept by callers, they are right exactly as
    // long as no event is stale.
    lemma {:induction false} FlagsExactly()
      requires Tracked()
      ensures FlagsOk() <==> Stale() == {}
    {
      if Stale() == {} {
        forall e | e in events ensures e.timerSet <==> e in tree.nodes {
          assert e !in Stale();
        }
      }
    }

    // The first branches of agc_rbtree_delete send it to the smallest node
    // under node.right, and that is no node.
    ghost predicate DeleteReadsNull(node: Node)
      reads node
    {
      node.left != tree.sentinel && node.right != tree.sentinel && node.right == null
    }

    // agc_timer_add_timer follows a null link if and only if the event's
    // flag does not say whether the tree holds it.
    lemma {:induction false} AddExactly(ev: Node)
      requires Kept() && ev in events
      ensures ev.timerSet && DeleteReadsNull(ev) <==> !(ev.timerSet <==> ev in tree.Order())
      ensures ev.timerSet && DeleteReadsNull(ev) <==> ev in Stale()
    {
      hide Queue, Matches, KeysOf;
      tree.Contents();
      if ev in tree.Order() {
        tree.LinksOf(ev);
      }
    }

    // One turn of the dispatcher.
    method Dispatch(now: nat, ghost lo: int) returns (fired: Node?)
      requires Kept() && Fits(live, lo) && lo <= now / 1000 < lo + HALF_RANGE
      modifies this`currentTime, this`live, tree`root, tree`shape, tree`nodes,
               tree.nodes`left, tree.nodes`right, tree.nodes`parent, tree.nodes`red, tree.nodes`key, tree.nodes`timerSet
      ensures Kept() && Stale() == old(Stale()) && (old(FlagsOk()) ==> FlagsOk())
      ensures events == old(events) && next == old(next) && currentTime == now
      ensures tree.nodes <= old(tree.nodes)
      ensures old(live) == [] || old(live)[0].due > now / 1000 ==> fired == null && live == old(live)
      ensures old(live) != [] && old(live)[0].due <= now / 1000 ==> fired == old(live)[0].ev && live == old(live)[1..]
    {
      hide RbTree.Valid, Queue, Drop, KeysOf, SignedDifference;
      fired := null;
      currentTime := now;
      var currentMs := currentTime / 1000;
      var node := tree.First();
      if node == null {
        return;
      }
      SignedIsDistance(lo, live[0].due, currentMs);
      if SignedDifference(node.key, currentMs % KEY_RANGE) > 0 {
        return;
      }
      tree.Contents();
      HeadDrops();
      node.timerSet := false;
      Unlink(node);
      fired := node;
    }

    lemma {:induction false} HeadDrops()
      requires Linked() && live != []
      ensures Drop(live, live[0].ev) == live[1..]
    {
      DropAt(live, 0);
    }

    // A whole run: the events fired are those of the reference run, and the
    // events with a wrong flag are those that were deleted.
    method Serve(reqs: seq<Request>, ghost los: seq<int>) returns (fired: seq<Node>)
      requires Valid() && live == [] && next == 0 && events == {} && |los| == |reqs|
      requires forall k | 0 <= k < |reqs| && reqs[k].Add? :: reqs[k].ev != tree.sentinel && !reqs[k].ev.timerSet
      requires forall k | 0 <= k < |reqs| :: Allowed(Run(State([], 0, []), Steps(reqs)[..k]), reqs, k)
      requires forall k | 0 <= k < |reqs| :: Covered(Run(State([], 0, []), Steps(reqs)[..k]), Steps(reqs)[k], los[k])
      modifies this, tree, tree.nodes, Events(reqs)
      ensures Kept() && Stale() == Deleted(reqs, |reqs|)
      ensures var s := Run(State([], 0, []), Steps(reqs));
              live == s.live && |fired| == |s.fired| && forall i | 0 <= i < |fired| :: fired[i] == s.fired[i].entry.ev
    {
      hide Linked, Tracked, Run, Covered, Fits, Do;
      fired := [];
      ghost var s, evs := State([], 0, []), Events(reqs);
      RunStart(s);
      StartsTracked();
      for k := 0 to |reqs|
        invariant Kept() && tree.nodes <= old(tree.nodes) + evs && s == Run(State([], 0, []), Steps(reqs)[..k])
        invariant forall e | e in evs :: e != tree.sentinel && (e in events || !e.timerSet)
        invariant Stale() == Deleted(reqs, k)
        invariant live == s.live && next == s.next && |fired| == |s.fired|
        invariant forall i | 0 <= i < |fired| :: fired[i] == s.fired[i].entry.ev
      {
        RunStep(State([], 0, []), Steps(reqs), k);
        DeletedMore(reqs, k);
        assert reqs[k].Add? ==> reqs[k].ev in evs;
        var ev := ServeOne(reqs[k], s, los[k], evs);
        if ev != null {
          fired := fired + [ev];
        }
        s := Do(s, Steps(reqs)[k]);
      }
      assert Steps(reqs)[..|reqs|] == Steps(reqs);
    }

    method ServeOne(req: Request, ghost s: State, ghost lo: int, ghost evs: set<Node>) returns (fired: Node?)
      requires Kept() && live == s.live && next == s.next && Covered(s, StepOf(req), lo)
      requires req.Add? ==> req.ev != tree.sentinel && req.ev !in Stale() && (req.ev in events || !req.ev.timerSet)
      requires req.Del? ==> exists i :: 0 <= i < |s.live| && s.live[i].ev == req.ev
      modifies this, tree, tree.nodes, if req.Add? then {req.ev} else {}
      ensures Kept() && Stale() == old(Stale()) + if req.Del? then {req.ev} else {}
      ensures live == Do(s, StepOf(req)).live && next == Do(s, StepOf(req)).next
      ensures Do(s, StepOf(req)).fired == s.fired + if fired == null then [] else Do(s, StepOf(req)).fired[|s.fired|..]
      ensures fired != null ==> |Do(s, StepOf(req)).fired| == |s.fired| + 1
      ensures fired != null ==> Do(s, StepOf(req)).fired[|s.fired|].entry.ev == fired
      ensures tree.nodes <= old(tree.nodes) + (if req.Add? then {req.ev} else {})
      ensures events == old(events) + if req.Add? then {req.ev} else {}
      ensures forall e | e in evs && e !in events && e != tree.sentinel :: e.timerSet == old(e.timerSet)
    {
      hide Linked, Tracked, Covered, Fits, Drop, Place;
      fired := null;
      NodesKnown();
      match req {
        case Add(ev, timer, now) =>
          CoveredAdd(s, ev, now / 1000 + timer, lo);
          AddAllowed(ev);
          AddTimer(ev, timer, now, lo);
        case Del(ev) =>
          Armed(ev);
          DelTimer(ev);
        case Turn(now) =>
          CoveredTick(s, now / 1000, lo);
          fired := Dispatch(now, lo);
      }
    }

    lemma {:induction false} StartsTracked()
      requires FlagsOk()
      ensures Tracked() && Stale() == {}
    {
    }

    lemma {:induction false} NodesKnown()
      requires Tracked()
      ensures tree.nodes <= events + {tree.sentinel}
    {
    }

    // An event that is not stale may be armed.
    lemma {:induction false} AddAllowed(ev: Node)
      requires Kept() && ev !in Stale() && ev != tree.sentinel && (ev in events || !ev.timerSet)
      ensures ev.timerSet <==> ev in tree.Order()
    {
      hide Linked;
      NotArmed(ev);
    }

    lemma {:induction false} Armed(ev: Node)
      requires Linked() && exists i :: 0 <= i < |live| && live[i].ev == ev
      ensures ev in tree.Order() && ev in tree.nodes
    {
      tree.Contents();
      var i :| 0 <= i < |live| && live[i].ev == ev;
      assert tree.Order()[i] == ev;
    }
  }

  datatype Request = Add(ev: Node, timer: Key, now: nat) | Del(ev: Node) | Turn(now: nat)

  ghost function StepOf(req: Request): Step {
    match req
    case Add(ev, timer, now) => Arm(ev, now / 1000 + timer)
    case Del(ev) => Disarm(ev)
    case Turn(now) => Tick(now / 1000)
  }

  ghost function Steps(reqs: seq<Request>): (steps: seq<Step>)
    ensures |steps| == |reqs|
  {
    seq(|reqs|, k requires 0 <= k < |reqs| => StepOf(reqs[k]))
  }

  ghost function Events(reqs: seq<Request>): set<Node> {
    set k | 0 <= k < |reqs| && reqs[k].Add? :: reqs[k].ev
  }

  // The events that the first k requests delete.
  ghost function Deleted(reqs: seq<Request>, k: nat): set<Node>
    requires k <= |reqs|
  {
    set i | 0 <= i < k && reqs[i].Del? :: reqs[i].ev
  }

  // A timer is deleted only while it is armed, and a deleted event is not
  // armed again.
  ghost predicate Allowed(s: State, reqs: seq<Request>, k: nat)
    requires k < |reqs|
  {
    match reqs[k]
    case Add(ev, _, _) => ev !in Deleted(reqs, k)
    case Del(ev) => exists i :: 0 <= i < |s.live| && s.live[i].ev == ev
    case Turn(_) => true
  }

  lemma {:induction false} DeletedMore(reqs: seq<Request>, k: nat)
    requires k < |reqs|
    ensures Deleted(reqs, k + 1) == Deleted(reqs, k) + if reqs[k].Del? then {reqs[k].ev} else {}
  {
  }

  lemma RunStart(s: State)
    ensures Run(s, []) == s
  {
  }

  lemma CoveredAdd(s: State, ev: Node, due: int, lo: int)
    requires Covered(s, Arm(ev, due), lo)
    ensures lo <= due < lo + HALF_RANGE && Fits(Drop(s.live, ev), lo)
  {
  }

  lemma CoveredTick(s: State, ms: int, lo: int)
    requires Covered(s, Tick(ms), lo)
    ensures lo <= ms < lo + HALF_RANGE && Fits(s.live, lo)
  {
  }
}
