/** The timer queue as a list ordered by true deadline, and its runs. */
module TimerQueue {
  import opened RbShape
  import opened RbSplice
  import opened RbTree

  // An armed timer: its event, its true deadline in milliseconds and the
  // moment it was added, counted in additions.
  datatype Entry = Entry(ev: Node, due: int, stamp: nat)

  ghost predicate Precedes(a: Entry, b: Entry) {
    a.due < b.due || (a.due == b.due && a.stamp < b.stamp)
  }

  ghost predicate Queue(live: seq<Entry>, next: nat) {
    && (forall i, j | 0 <= i < j < |live| :: Precedes(live[i], live[j]) && live[i].ev != live[j].ev)
    && (forall i | 0 <= i < |live| :: live[i].stamp < next)
  }

  // Disarming ev.
  ghost function Drop(live: seq<Entry>, ev: Node): seq<Entry> {
    if live == [] then []
    else (if live[0].ev == ev then [] else [live[0]]) + Drop(live[1..], ev)
  }

  // Arming e: behind every timer that is not due later.
  ghost function Place(live: seq<Entry>, e: Entry): seq<Entry> {
    if live == [] || e.due < live[0].due then [e] + live
    else [live[0]] + Place(live[1..], e)
  }

  lemma {:induction false} DropAt(live: seq<Entry>, at: nat)
    requires at < |live| && forall i, j | 0 <= i < j < |live| :: live[i].ev != live[j].ev
    ensures Drop(live, live[at].ev) == live[..at] + live[at + 1..]
  {
    if at == 0 {
      DropAbsent(live[1..], live[0].ev);
    } else {
      DropAt(live[1..], at - 1);
      assert live == [live[0]] + live[1..];
    }
  }

  lemma {:induction false} DropAbsent(live: seq<Entry>, ev: Node)
    requires forall i | 0 <= i < |live| :: live[i].ev != ev
    ensures Drop(live, ev) == live
  {
    if live != [] { DropAbsent(live[1..], ev); }
  }

  lemma {:induction false} PlaceAt(live: seq<Entry>, e: Entry, at: nat)
    requires at <= |live|
    requires forall i | 0 <= i < at :: live[i].due <= e.due
    requires forall i | at <= i < |live| :: e.due < live[i].due
    ensures Place(live, e) == live[..at] + [e] + live[at..]
  {
    if at > 0 {
      PlaceAt(live[1..], e, at - 1);
      assert live[..at] == [live[0]] + live[1..][..at - 1];
      assert live[at..] == live[1..][at - 1..];
    }
  }

  // ----- runs -----

  datatype Step = Arm(ev: Node, due: int) | Disarm(ev: Node) | Tick(ms: int)

  // A dispatch that fired entry at time ms and left rest armed.
  datatype Firing = Firing(entry: Entry, ms: int, rest: seq<Entry>)

  datatype State = State(live: seq<Entry>, next: nat, fired: seq<Firing>)

  ghost function Do(s: State, step: Step): State {
    match step
    case Arm(ev, due) => s.(live := Place(Drop(s.live, ev), Entry(ev, due, s.next)), next := s.next + 1)
    case Disarm(ev) => s.(live := Drop(s.live, ev))
    case Tick(ms) =>
      if s.live == [] || s.live[0].due > ms then s
      else s.(live := s.live[1..], fired := s.fired + [Firing(s.live[0], ms, s.live[1..])])
  }

  ghost function Run(s: State, steps: seq<Step>): State
    decreases |steps|
  {
    if steps == [] then s else Do(Run(s, steps[..|steps| - 1]), steps[|steps| - 1])
  }

  // No timer fired early, and each fired before all that were armed then.
  ghost predicate Orderly(f: Firing) {
    f.entry.due <= f.ms && forall i | 0 <= i < |f.rest| :: Precedes(f.entry, f.rest[i])
  }

  ghost predicate Sound(s: State) {
    Queue(s.live, s.next) && forall i | 0 <= i < |s.fired| :: Orderly(s.fired[i])
  }

  lemma {:induction false} DropQueue(live: seq<Entry>, ev: Node, next: nat)
    requires Queue(live, next)
    ensures Queue(Drop(live, ev), next)
    ensures forall e | e in Drop(live, ev) :: e.ev != ev
    ensures forall e | e in live && e.ev != ev :: e in Drop(live, ev)
    ensures forall e | e in Drop(live, ev) :: e in live
  {
    if i :| 0 <= i < |live| && live[i].ev == ev {
      DropAt(live, i);
      forall e | e in live && e.ev != ev ensures e in Drop(live, ev) {
        var k :| 0 <= k < |live| && live[k] == e;
        if k < i { assert e == live[..i][k]; } else { assert e == live[i + 1..][k - i - 1]; }
      }
    } else {
      DropAbsent(live, ev);
    }
  }

  lemma {:induction false} PlaceIndex(live: seq<Entry>, e: Entry, next: nat) returns (at: nat)
    requires Queue(live, next)
    ensures at <= |live| && Place(live, e) == live[..at] + [e] + live[at..]
    ensures forall i | 0 <= i < at :: live[i].due <= e.due
    ensures forall i | at <= i < |live| :: e.due < live[i].due
  {
    at := 0;
    while at < |live| && live[at].due <= e.due
      invariant at <= |live| && forall i | 0 <= i < at :: live[i].due <= e.due
    {
      at := at + 1;
    }
    PlaceAt(live, e, at);
  }

  lemma {:induction false} PlaceQueue(live: seq<Entry>, e: Entry)
    requires Queue(live, e.stamp) && forall i | 0 <= i < |live| :: live[i].ev != e.ev
    ensures Queue(Place(live, e), e.stamp + 1)
  {
    var at := PlaceIndex(live, e, e.stamp);
    hide Place;
    var placed := live[..at] + [e] + live[at..];
    forall i | 0 <= i < |placed| && i != at
      ensures placed[i] in live && placed[i] == live[if i < at then i else i - 1] && placed[i].stamp < e.stamp
    {
    }
    forall i, j | 0 <= i < j < |placed| ensures Precedes(placed[i], placed[j]) && placed[i].ev != placed[j].ev {
      if i == at {
        assert placed[j] == live[j - 1];
      } else if j == at {
        assert placed[i] == live[i];
      } else {
        assert placed[i] == live[if i < at then i else i - 1] && placed[j] == live[if j < at then j else j - 1];
      }
    }
  }

  lemma {:induction false} DoSound(s: State, step: Step)
    requires Sound(s)
    ensures Sound(Do(s, step))
  {
    match step
    case Arm(ev, due) =>
      DropQueue(s.live, ev, s.next);
      PlaceQueue(Drop(s.live, ev), Entry(ev, due, s.next));
    case Disarm(ev) => DropQueue(s.live, ev, s.next);
    case Tick(ms) =>
  }

  // In every run from an empty queue, no timer fires early, and every firing
  // is the earliest armed timer, the first added among equals.
  lemma {:induction false} RunSound(steps: seq<Step>)
    ensures Sound(Run(State([], 0, []), steps))
    decreases |steps|
  {
    if steps != [] {
      RunSound(steps[..|steps| - 1]);
      DoSound(Run(State([], 0, []), steps[..|steps| - 1]), steps[|steps| - 1]);
    }
  }

  // The run up to and including step k continues the run up to step k.
  lemma {:induction false} RunStep(s: State, steps: seq<Step>, k: nat)
    requires k < |steps|
    ensures Run(s, steps[..k + 1]) == Do(Run(s, steps[..k]), steps[k])
  {
    assert steps[..k + 1][..k] == steps[..k];
  }

  // ----- keys on the clock -----

  ghost function KeyOf(due: int): Key {
    due % KEY_RANGE
  }

  ghost predicate Fits(live: seq<Entry>, lo: int) {
    forall i | 0 <= i < |live| :: lo <= live[i].due < lo + HALF_RANGE
  }

  // The deadlines that step compares, and its own time, fit in one window.
  ghost predicate Covered(s: State, step: Step, lo: int) {
    match step
    case Arm(ev, due) => lo <= due < lo + HALF_RANGE && Fits(Drop(s.live, ev), lo)
    case Disarm(_) => true
    case Tick(ms) => lo <= ms < lo + HALF_RANGE && Fits(s.live, lo)
  }

  // Inside the window, a key's rank is its true distance from the window's start.
  lemma {:induction false} RankIsDistance(lo: int, due: int)
    requires lo <= due < lo + HALF_RANGE
    ensures Rank(ByTimer, KeyOf(lo), KeyOf(due)) == due - lo
    ensures InWindow(ByTimer, KeyOf(lo), KeyOf(due))
  {
    var q := due / KEY_RANGE - lo / KEY_RANGE;
    assert KeyOf(due) - KeyOf(lo) == due - lo + (-q) * KEY_RANGE;
    ModUnique(KeyOf(due) - KeyOf(lo), due - lo, -q);
  }

  // Two moments of one window compare as their keys do.
  lemma {:induction false} SignedIsDistance(lo: int, a: int, b: int)
    requires lo <= a < lo + HALF_RANGE && lo <= b < lo + HALF_RANGE
    ensures SignedDifference(KeyOf(a), KeyOf(b)) == a - b
  {
    SignedExact(a, b);
  }

  // The wrapped difference of two keys is the distance of their deadlines
  // if and only if it is at least -HALF_RANGE and less than HALF_RANGE.
  lemma {:induction false} SignedExact(a: int, b: int)
    ensures SignedDifference(KeyOf(a), KeyOf(b)) == a - b <==> -HALF_RANGE <= a - b < HALF_RANGE
  {
    if -HALF_RANGE <= a - b < HALF_RANGE {
      var q := a / KEY_RANGE - b / KEY_RANGE;
      assert KeyOf(a) - KeyOf(b) == a - b + (-q) * KEY_RANGE;
      if a >= b {
        ModUnique(KeyOf(a) - KeyOf(b), a - b, -q);
      } else {
        assert KeyOf(a) - KeyOf(b) == (a - b + KEY_RANGE) + (-q - 1) * KEY_RANGE;
        ModUnique(KeyOf(a) - KeyOf(b), a - b + KEY_RANGE, -q - 1);
      }
    }
  }

  // The tree's nodes and keys in order stand for the armed timers.
  ghost predicate Matches(order: seq<Node>, ks: seq<Key>, live: seq<Entry>) {
    && |order| == |live| == |ks|
    && forall i | 0 <= i < |live| :: order[i] == live[i].ev && ks[i] == KeyOf(live[i].due)
  }

  lemma {:induction false} MatchesOrdered(order: seq<Node>, ks: seq<Key>, live: seq<Entry>, next: nat, lo: int)
    requires Matches(order, ks, live) && Queue(live, next) && Fits(live, lo)
    ensures Ordered(ByTimer, KeyOf(lo), ks)
  {
    forall i | 0 <= i < |ks|
      ensures InWindow(ByTimer, KeyOf(lo), ks[i]) && Rank(ByTimer, KeyOf(lo), ks[i]) == live[i].due - lo
    {
      RankIsDistance(lo, live[i].due);
    }
    hide Rank, InWindow, KeyOf;
  }

  lemma {:induction false} MatchesDrop(order: seq<Node>, ks: seq<Key>, live: seq<Entry>, next: nat, at: nat,
      ev: Node, rest: seq<Node>)
    requires Matches(order, ks, live) && Queue(live, next) && Without(order, at, ev, rest)
    ensures Drop(live, ev) == live[..at] + live[at + 1..]
    ensures Matches(rest, ks[..at] + ks[at + 1..], Drop(live, ev)) && Queue(Drop(live, ev), next)
  {
    DropAt(live, at);
    DropQueue(live, ev, next);
    MatchesCut(order, ks, live, at);
  }

  lemma {:induction false} MatchesCut(order: seq<Node>, ks: seq<Key>, live: seq<Entry>, at: nat)
    requires Matches(order, ks, live) && at < |live|
    ensures Matches(order[..at] + order[at + 1..], ks[..at] + ks[at + 1..], live[..at] + live[at + 1..])
  {
    hide KeyOf;
  }

  lemma {:induction false} MatchesPlace(order: seq<Node>, ks: seq<Key>, live: seq<Entry>, e: Entry, at: nat, lo: int)
    requires Matches(order, ks, live) && Queue(live, e.stamp) && e.ev !in order
    requires Fits(live, lo) && lo <= e.due < lo + HALF_RANGE
    requires SplitsAt(ByTimer, KeyOf(lo), ks, at, KeyOf(e.due))
    ensures Matches(order[..at] + [e.ev] + order[at..], ks[..at] + [KeyOf(e.due)] + ks[at..], Place(live, e))
    ensures Queue(Place(live, e), e.stamp + 1)
  {
    hide KeyOf, Queue, Place, Rank, InWindow;
    RankIsDistance(lo, e.due);
    forall i | 0 <= i < |live| ensures Rank(ByTimer, KeyOf(lo), ks[i]) == live[i].due - lo && live[i].ev != e.ev {
      RankIsDistance(lo, live[i].due);
      assert live[i].ev == order[i];
    }
    PlaceAt(live, e, at);
    PlaceQueue(live, e);
    MatchesInsert(order, ks, live, e, at);
  }

  lemma {:induction false} MatchesInsert(order: seq<Node>, ks: seq<Key>, live: seq<Entry>, e: Entry, at: nat)
    requires Matches(order, ks, live) && at <= |live|
    ensures var order', ks' := order[..at] + [e.ev] + order[at..], ks[..at] + [KeyOf(e.due)] + ks[at..];
            Matches(order', ks', live[..at] + [e] + live[at..])
  {
    hide KeyOf;
  }
}
