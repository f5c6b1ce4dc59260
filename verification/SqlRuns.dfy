/** All interleavings of threads that acquire and release handles. */
module SqlRuns {
  import opened SqlPool

  // One thread's acquire is three steps: the gate, the search, and, if
  // the search finds nothing, a new handle. Each is atomic; between them
  // any other thread may run. GiveUp: the database cannot be reached.
  datatype Step =
    | Gate(t: Thread)
    | Search(t: Thread)
    | Add(t: Thread)
    | GiveUp(t: Thread)
    | Release(t: Thread, h: nat)

  // passed and missed: the threads behind the gate and behind a vain
  // search. grants: the handles given out and not yet given back.
  datatype System = System(pool: State, passed: set<Thread>, missed: set<Thread>, grants: multiset<(Thread, nat)>)

  const START := System(EMPTY, {}, {}, multiset{})

  ghost predicate Enabled(s: System, step: Step, max: nat) {
    match step
    case Gate(t) => t !in s.passed + s.missed && Open(s.pool, max)
    case Search(t) => t in s.passed
    case Add(t) => t in s.missed
    case GiveUp(t) => t in s.missed
    case Release(t, h) => (t, h) in s.grants && h < |s.pool.handles| && s.pool.handles[h].depth > 0
  }

  ghost function Do(s: System, step: Step, max: nat, hash: Thread -> int): System
    requires Enabled(s, step, max)
  {
    match step
    case Gate(t) => s.(passed := s.passed + {t})
    case Search(t) =>
      var h := Choice(s.pool.handles, t, hash(t));
      if h < 0 then s.(passed := s.passed - {t}, missed := s.missed + {t})
      else System(Taken(s.pool, t, hash(t), h), s.passed - {t}, s.missed, s.grants + multiset{(t, h)})
    case Add(t) =>
      System(Added(s.pool, t, hash(t)), s.passed, s.missed - {t}, s.grants + multiset{(t, |s.pool.handles|)})
    case GiveUp(t) => s.(missed := s.missed - {t})
    case Release(t, h) => s.(pool := Released(s.pool, h), grants := s.grants - multiset{(t, h)})
  }

  datatype Reached = At(system: System) | Impossible

  ghost function Then(r: Reached, step: Step, max: nat, hash: Thread -> int): Reached {
    if r.At? && Enabled(r.system, step, max) then At(Do(r.system, step, max, hash)) else Impossible
  }

  // The state after a run, if there is such a run.
  ghost function After(run: seq<Step>, max: nat, hash: Thread -> int): Reached {
    if run == [] then At(START) else Then(After(run[..|run| - 1], max, hash), run[|run| - 1], max, hash)
  }

  // ----- what every run keeps -----

  ghost function Sum(hs: seq<Handle>): nat {
    if hs == [] then 0 else Sum(hs[..|hs| - 1]) + hs[|hs| - 1].useCount
  }

  lemma {:induction false} SumUpdate(hs: seq<Handle>, h: nat, x: Handle)
    requires h < |hs|
    ensures Sum(hs[h := x]) == Sum(hs) - hs[h].useCount + x.useCount
  {
    var n := |hs| - 1;
    if h == n {
      assert hs[h := x][..n] == hs[..n];
    } else {
      assert hs[h := x][..n] == hs[..n][h := x];
      SumUpdate(hs[..n], h, x);
    }
  }

  lemma {:induction false} SumAdd(hs: seq<Handle>, x: Handle)
    ensures Sum(hs + [x]) == Sum(hs) + x.useCount
  {
    assert (hs + [x])[..|hs|] == hs;
  }

  // A handle's lock depth is its use count, and all the grants of it that
  // are out are its owner's.
  ghost predicate HandleOk(h: nat, x: Handle, grants: multiset<(Thread, nat)>) {
    && x.depth == x.useCount && (x.depth == 0 <==> x.owner == Nobody)
    && forall t: Thread :: grants[(t, h)] == if x.owner == By(t) then x.depth else 0
  }

  ghost predicate Inv(s: System) {
    && s.pool.totalHandles == |s.pool.handles|
    && s.pool.totalUsed == Sum(s.pool.handles)
    && (forall h | 0 <= h < |s.pool.handles| :: HandleOk(h, s.pool.handles[h], s.grants))
    && (forall t: Thread, h: nat | (t, h) in s.grants :: h < |s.pool.handles|)
  }

  // No two threads ever hold the same handle.
  lemma {:induction false} OneHolder(s: System, t: Thread, u: Thread, h: nat)
    requires Inv(s) && (t, h) in s.grants && (u, h) in s.grants
    ensures t == u && s.pool.handles[h].owner == By(t) && s.pool.handles[h].depth == s.grants[(t, h)]
  {
    assert HandleOk(h, s.pool.handles[h], s.grants);
  }

  lemma {:induction false} OtherHandleOk(h: nat, x: Handle, g: multiset<(Thread, nat)>, g': multiset<(Thread, nat)>)
    requires HandleOk(h, x, g) && forall t: Thread :: g'[(t, h)] == g[(t, h)]
    ensures HandleOk(h, x, g')
  {
  }

  lemma {:induction false} TakenInv(s: System, t: Thread, hash: int, h: nat)
    requires Inv(s) && h < |s.pool.handles| && Lockable(s.pool.handles[h], t)
    ensures var s' := System(Taken(s.pool, t, hash, h), s.passed, s.missed, s.grants + multiset{(t, h)}); Inv(s')
  {
    hide HandleOk, Sum;
    var hs, g := s.pool.handles, s.grants + multiset{(t, h)};
    var x := Locked(hs[h], t).(useCount := hs[h].useCount + 1, hash := hash);
    SumUpdate(hs, h, x);
    TakenHandle(h, hs[h], x, s.grants, t);
    forall k | 0 <= k < |hs| && k != h ensures HandleOk(k, hs[k], g) {
      OtherHandleOk(k, hs[k], s.grants, g);
    }
  }

  lemma {:induction false} TakenHandle(h: nat, x: Handle, x': Handle, g: multiset<(Thread, nat)>, t: Thread)
    requires HandleOk(h, x, g) && Lockable(x, t)
    requires x'.owner == By(t) && x'.depth == x.depth + 1 && x'.useCount == x.useCount + 1
    ensures HandleOk(h, x', g + multiset{(t, h)})
  {
  }

  lemma {:induction false} AddedInv(s: System, t: Thread, hash: int)
    requires Inv(s)
    ensures var s' := System(Added(s.pool, t, hash), s.passed, s.missed,
            s.grants + multiset{(t, |s.pool.handles|)}); Inv(s')
  {
    hide HandleOk, Sum;
    var hs := s.pool.handles;
    var g, x := s.grants + multiset{(t, |hs|)}, Handle(By(t), 1, 1, hash);
    SumAdd(hs, x);
    AddedHandle(|hs|, x, s.grants, t);
    forall k | 0 <= k < |hs| ensures HandleOk(k, hs[k], g) {
      OtherHandleOk(k, hs[k], s.grants, g);
    }
  }

  lemma {:induction false} AddedHandle(h: nat, x: Handle, g: multiset<(Thread, nat)>, t: Thread)
    requires x.owner == By(t) && x.depth == 1 && x.useCount == 1 && forall u: Thread :: (u, h) !in g
    ensures HandleOk(h, x, g + multiset{(t, h)})
  {
  }

  lemma {:induction false} ReleasedInv(s: System, t: Thread, h: nat)
    requires Inv(s) && (t, h) in s.grants && h < |s.pool.handles| && s.pool.handles[h].depth > 0
    ensures var s' := System(Released(s.pool, h), s.passed, s.missed, s.grants - multiset{(t, h)}); Inv(s')
  {
    hide HandleOk, Sum;
    var hs, g := s.pool.handles, s.grants - multiset{(t, h)};
    var x := Released(s.pool, h).handles[h];
    ReleasedHandle(h, hs[h], x, s.grants, t);
    SumUpdate(hs, h, x);
    forall k | 0 <= k < |hs| && k != h ensures HandleOk(k, hs[k], g) {
      OtherHandleOk(k, hs[k], s.grants, g);
    }
  }

  lemma {:induction false} ReleasedHandle(h: nat, x: Handle, x': Handle, g: multiset<(Thread, nat)>, t: Thread)
    requires HandleOk(h, x, g) && (t, h) in g
    requires x'.owner == (if x.depth == 1 then Nobody else x.owner) && x'.depth == x.depth - 1
    requires x'.useCount == if x.useCount == 0 then 0 else x.useCount - 1
    ensures HandleOk(h, x', g - multiset{(t, h)}) && x.useCount == x'.useCount + 1
  {
  }

  lemma {:induction false} ChoiceLockable(hs: seq<Handle>, t: Thread, hash: int)
    ensures Choice(hs, t, hash) >= 0 ==> Lockable(hs[Choice(hs, t, hash)], t)
    ensures Choice(hs, t, hash) < 0 ==> forall h | 0 <= h < |hs| :: !Lockable(hs[h], t)
  {
    OwnLockable(hs, t, hash, |hs|);
    AnyLockable(hs, t, |hs|);
  }

  lemma {:induction false} OwnLockable(hs: seq<Handle>, t: Thread, hash: int, n: nat)
    requires n <= |hs|
    ensures OwnHandle(hs, t, hash, n) >= 0 ==> Lockable(hs[OwnHandle(hs, t, hash, n)], t)
  {
    if n > 0 {
      OwnLockable(hs, t, hash, n - 1);
    }
  }

  lemma {:induction false} AnyLockable(hs: seq<Handle>, t: Thread, n: nat)
    requires n <= |hs|
    ensures AnyHandle(hs, t, n) >= 0 ==> Lockable(hs[AnyHandle(hs, t, n)], t)
    ensures AnyHandle(hs, t, n) < 0 ==> forall h | 0 <= h < n :: !Lockable(hs[h], t)
  {
    if n > 0 {
      AnyLockable(hs, t, n - 1);
    }
  }

  lemma {:induction false} DoInv(s: System, step: Step, max: nat, hash: Thread -> int)
    requires Inv(s) && Enabled(s, step, max)
    ensures Inv(Do(s, step, max, hash))
  {
    match step {
      case Search(t) =>
        ChoiceLockable(s.pool.handles, t, hash(t));
        var h := Choice(s.pool.handles, t, hash(t));
        hide Choice, HandleOk, Sum;
        if h >= 0 {
          TakenInv(s, t, hash(t), h);
        }
      case Add(t) => AddedInv(s, t, hash(t));
      case Release(t, h) => ReleasedInv(s, t, h);
      case _ =>
    }
  }

  // In every interleaving.
  lemma {:induction false} RunInv(run: seq<Step>, max: nat, hash: Thread -> int)
    requires After(run, max, hash).At?
    ensures Inv(After(run, max, hash).system)
  {
    if run == [] {
      assert Inv(START);
    } else {
      RunInv(run[..|run| - 1], max, hash);
      DoInv(After(run[..|run| - 1], max, hash).system, run[|run| - 1], max, hash);
    }
  }

  // ----- the cache -----

  // A handle that nobody uses has forgotten whose it was.
  ghost predicate Forgotten(s: State) {
    forall h | 0 <= h < |s.handles| && s.handles[h].useCount == 0 :: s.handles[h].hash == RELEASED_HASH
  }

  lemma {:induction false} DoForgotten(s: System, step: Step, max: nat, hash: Thread -> int)
    requires Inv(s) && Enabled(s, step, max) && Forgotten(s.pool)
    ensures Forgotten(Do(s, step, max, hash).pool)
  {
    hide Sum, Choice;
    if step.Release? {
      assert HandleOk(step.h, s.pool.handles[step.h], s.grants);
    }
  }

  lemma {:induction false} RunForgotten(run: seq<Step>, max: nat, hash: Thread -> int)
    requires After(run, max, hash).At?
    ensures Forgotten(After(run, max, hash).system.pool)
  {
    if run != [] {
      var r := run[..|run| - 1];
      RunForgotten(r, max, hash);
      RunInv(r, max, hash);
      DoForgotten(After(r, max, hash).system, run[|run| - 1], max, hash);
    }
  }

  // So in every interleaving the search for a handle of the thread's own
  // hash finds none, unless that is the hash of released handles: a thread
  // gets the handle nearest to the list head that it can lock.
  lemma {:induction false} NeverCached(run: seq<Step>, max: nat, hash: Thread -> int, t: Thread)
    requires After(run, max, hash).At? && hash(t) != RELEASED_HASH
    ensures var hs := After(run, max, hash).system.pool.handles;
            var r := Choice(hs, t, hash(t));
            && (forall h | 0 <= h < |hs| :: !Cached(hs, t, hash(t), h))
            && (r >= 0 ==> Lockable(hs[r], t)) && forall h | r < h < |hs| :: !Lockable(hs[h], t)
  {
    RunForgotten(run, max, hash);
    var hs := After(run, max, hash).system.pool.handles;
    hide After, Choice;
    ChoicePicked(hs, t, hash(t));
  }

  // A holder can always give its handle back.
  lemma {:induction false} CanRelease(s: System, t: Thread, h: nat, max: nat)
    requires Inv(s) && (t, h) in s.grants
    ensures Enabled(s, Release(t, h), max)
  {
    OneHolder(s, t, t, h);
  }

  // ----- the size of the pool -----

  // Acquires do not overlap: nobody passes the gate while another thread
  // is still between gate and handle.
  ghost predicate Serial(run: seq<Step>, max: nat, hash: Thread -> int) {
    run == [] || (
      var before := After(run[..|run| - 1], max, hash);
      && Serial(run[..|run| - 1], max, hash)
      && (before.At? && run[|run| - 1].Gate? ==> before.system.passed == {} && before.system.missed == {})
    )
  }

  ghost predicate Bounded(s: System, max: nat) {
    && |s.pool.handles| <= max
    && (forall t | t in s.passed :: s.passed == {t} && s.missed == {} && Open(s.pool, max))
    && (forall t | t in s.missed :: s.missed == {t} && s.passed == {} && |s.pool.handles| < max)
  }

  // With fewer uses than handles, one is not in use.
  lemma {:induction false} Pigeonhole(hs: seq<Handle>)
    requires forall h | 0 <= h < |hs| :: hs[h].useCount > 0
    ensures Sum(hs) >= |hs|
  {
    if hs != [] {
      Pigeonhole(hs[..|hs| - 1]);
    }
  }

  lemma {:induction false} MissIsFull(s: System, t: Thread, hash: int)
    requires Inv(s) && Choice(s.pool.handles, t, hash) < 0
    ensures s.pool.totalUsed >= s.pool.totalHandles
  {
    var hs := s.pool.handles;
    ChoiceLockable(hs, t, hash);
    forall h | 0 <= h < |hs| ensures hs[h].useCount > 0 {
      assert HandleOk(h, hs[h], s.grants) && !Lockable(hs[h], t);
    }
    Pigeonhole(hs);
  }

  lemma {:induction false} DoBounded(s: System, step: Step, max: nat, hash: Thread -> int)
    requires Inv(s) && Enabled(s, step, max) && max != 0 && Bounded(s, max)
    requires step.Gate? ==> s.passed == {} && s.missed == {}
    ensures Bounded(Do(s, step, max, hash), max)
  {
    hide HandleOk, Sum, Choice;
    if step.Search? && Choice(s.pool.handles, step.t, hash(step.t)) < 0 {
      MissIsFull(s, step.t, hash(step.t));
    }
  }

  // If acquires do not overlap, the pool never outgrows its maximum.
  lemma {:induction false} SerialBounded(run: seq<Step>, max: nat, hash: Thread -> int)
    requires max != 0 && After(run, max, hash).At? && Serial(run, max, hash)
    ensures Bounded(After(run, max, hash).system, max)
  {
    if run != [] {
      var r := run[..|run| - 1];
      SerialBounded(r, max, hash);
      RunInv(r, max, hash);
      DoBounded(After(r, max, hash).system, run[|run| - 1], max, hash);
    }
  }

  // ----- overlapping acquires -----

  // Thread a holds all of n handles.
  ghost function Hoard(a: Thread, n: nat, hash: Thread -> int): System {
    System(State(seq(n, i => Handle(By(a), 1, 1, hash(a))), n, n), {}, {}, HoardGrants(a, n))
  }

  ghost function HoardGrants(a: Thread, n: nat): multiset<(Thread, nat)> {
    if n == 0 then multiset{} else HoardGrants(a, n - 1) + multiset{(a, n - 1)}
  }

  // Thread a gives its last handle back; thread b passes the gate; thread
  // a takes the handle again; thread b finds none and adds one.
  ghost function OneMore(a: Thread, b: Thread, n: nat): seq<Step>
    requires n > 0
  {
    [Release(a, n - 1), Gate(b), Gate(a), Search(a), Search(b), Add(b), Release(b, n), Gate(a), Search(a)]
  }

  ghost function HoardRun(a: Thread, b: Thread, n: nat): seq<Step>
    requires n > 0
  {
    if n == 1 then [Gate(a), Search(a), Add(a)] else HoardRun(a, b, n - 1) + OneMore(a, b, n - 1)
  }

  lemma {:induction false} AfterMore(run: seq<Step>, step: Step, max: nat, hash: Thread -> int)
    ensures After(run + [step], max, hash) == Then(After(run, max, hash), step, max, hash)
  {
    assert (run + [step])[..|run|] == run;
  }

  ghost function Mine(a: Thread, hash: Thread -> int): Handle {
    Handle(By(a), 1, 1, hash(a))
  }

  const FREE := Handle(Nobody, 0, 0, RELEASED_HASH)

  ghost function Row(a: Thread, n: nat, hash: Thread -> int): seq<Handle> {
    seq(n, i => Mine(a, hash))
  }

  // The search from the end finds the one free handle.
  lemma {:induction false} ChoiceLast(a: Thread, n: nat, t: Thread, hash: Thread -> int)
    ensures Choice(Row(a, n, hash) + [FREE], t, hash(t)) == n
  {
    var hs := Row(a, n, hash) + [FREE];
    NoOwn(hs, t, hash(t), n);
    assert AnyHandle(hs, t, n + 1) == n;
    if RELEASED_HASH == hash(t) {
      assert OwnHandle(hs, t, hash(t), n + 1) == n;
    } else {
      assert OwnHandle(hs, t, hash(t), n + 1) == OwnHandle(hs, t, hash(t), n);
    }
  }

  lemma {:induction false} NoOwn(hs: seq<Handle>, t: Thread, hash: int, n: nat)
    requires n <= |hs| && forall h | 0 <= h < n :: hs[h].useCount > 0
    ensures OwnHandle(hs, t, hash, n) == -1
  {
    if n > 0 {
      NoOwn(hs, t, hash, n - 1);
    }
  }

  lemma {:induction false} NoneToLock(hs: seq<Handle>, t: Thread, n: nat)
    requires n <= |hs| && forall h | 0 <= h < n :: !Lockable(hs[h], t)
    ensures AnyHandle(hs, t, n) == -1
  {
    if n > 0 {
      NoneToLock(hs, t, n - 1);
    }
  }

  lemma {:induction false} ChoiceNone(a: Thread, b: Thread, n: nat, hash: Thread -> int)
    requires a != b
    ensures Choice(Row(a, n, hash), b, hash(b)) == -1
  {
    NoOwn(Row(a, n, hash), b, hash(b), n);
    NoneToLock(Row(a, n, hash), b, n);
  }

  // A thread takes the free last handle.
  lemma {:induction false} TakesLast(a: Thread, n: nat, others: set<Thread>, max: nat, hash: Thread -> int)
    requires a !in others
    ensures var s := System(State(Row(a, n, hash) + [FREE], n + 1, n), others + {a}, {}, HoardGrants(a, n));
            Then(At(s), Search(a), max, hash) == At(Hoard(a, n + 1, hash).(passed := others))
  {
    var hs := Row(a, n, hash) + [FREE];
    ChoiceLast(a, n, a, hash);
    hide Choice;
    assert others + {a} - {a} == others;
    assert hs[n := Mine(a, hash)] == Row(a, n + 1, hash);
    assert Locked(FREE, a).(useCount := 1, hash := hash(a)) == Mine(a, hash);
    assert Hoard(a, n + 1, hash).pool.handles == Row(a, n + 1, hash);
  }

  // Thread a gives back the last of n + 1 handles.
  lemma {:induction false} GivesLast(a: Thread, n: nat, max: nat, hash: Thread -> int)
    ensures Then(At(Hoard(a, n + 1, hash)), Release(a, n), max, hash)
         == At(System(State(Row(a, n, hash) + [FREE], n + 1, n), {}, {}, HoardGrants(a, n)))
  {
    var hs := Hoard(a, n + 1, hash).pool.handles;
    assert hs[n] == Mine(a, hash) && (a, n) in HoardGrants(a, n + 1);
    assert hs[n := FREE] == Row(a, n, hash) + [FREE];
    assert HoardGrants(a, n) + multiset{(a, n)} - multiset{(a, n)} == HoardGrants(a, n);
  }

  // Thread b, past the gate, finds nothing, adds a handle and releases it.
  lemma {:induction false} AddsOne(a: Thread, b: Thread, n: nat, max: nat, hash: Thread -> int)
    requires a != b
    ensures var r := Then(At(Hoard(a, n, hash).(passed := {b})), Search(b), max, hash);
            var r1 := Then(r, Add(b), max, hash);
            var r2 := Then(r1, Release(b, n), max, hash);
            r2 == At(System(State(Row(a, n, hash) + [FREE], n + 1, n), {}, {}, HoardGrants(a, n)))
  {
    var s := Hoard(a, n, hash).(passed := {b});
    assert s.pool.handles == Row(a, n, hash);
    ChoiceNone(a, b, n, hash);
    hide Choice;
    var s1 := s.(passed := {b} - {b}, missed := {} + {b});
    assert Then(At(s), Search(b), max, hash) == At(s1);
    var hs := Row(a, n, hash) + [Handle(By(b), 1, 1, hash(b))];
    var s2 := System(State(hs, n + 1, n + 1), {}, {}, HoardGrants(a, n) + multiset{(b, n)});
    assert Then(At(s1), Add(b), max, hash) == At(s2) by {
      assert s1.passed == {} && s1.missed - {b} == {};
    }
    assert hs[n := FREE] == Row(a, n, hash) + [FREE];
    assert HoardGrants(a, n) + multiset{(b, n)} - multiset{(b, n)} == HoardGrants(a, n);
  }

  lemma {:induction false} GateOpens(s: System, t: Thread, max: nat, hash: Thread -> int)
    requires t !in s.passed + s.missed && s.pool.totalUsed < s.pool.totalHandles
    ensures Then(At(s), Gate(t), max, hash) == At(s.(passed := s.passed + {t}))
  {
  }

  // Whatever the maximum, two threads make the pool reach any size, each
  // round adding a handle.
  lemma {:induction false} Outgrown(a: Thread, b: Thread, n: nat, max: nat, hash: Thread -> int)
    requires n > 0 && a != b
    ensures After(HoardRun(a, b, n), max, hash) == At(Hoard(a, n, hash))
    ensures |Hoard(a, n, hash).pool.handles| == n
  {
    if n == 1 {
      FirstHandle(a, max, hash);
    } else {
      var m, run := n - 2, HoardRun(a, b, n - 1);
      Outgrown(a, b, n - 1, max, hash);
      Round(a, b, run, m, max, hash);
    }
  }

  lemma {:induction false} FirstHandle(a: Thread, max: nat, hash: Thread -> int)
    ensures After([Gate(a), Search(a), Add(a)], max, hash) == At(Hoard(a, 1, hash))
  {
    var s1, s2 := START.(passed := {a}), START.(missed := {a});
    assert Then(At(START), Gate(a), max, hash) == At(s1) by {
      assert START.passed + {a} == {a};
    }
    assert Then(At(s1), Search(a), max, hash) == At(s2) by {
      assert s1.passed - {a} == {} && s1.missed + {a} == {a};
    }
    assert Then(At(s2), Add(a), max, hash) == At(Hoard(a, 1, hash)) by {
      assert s2.missed - {a} == {};
      assert [] + [Mine(a, hash)] == Hoard(a, 1, hash).pool.handles;
      assert HoardGrants(a, 1) == multiset{} + multiset{(a, 0)};
    }
    AfterMore([], Gate(a), max, hash);
    AfterMore([Gate(a)], Search(a), max, hash);
    AfterMore([Gate(a), Search(a)], Add(a), max, hash);
    assert [] + [Gate(a)] == [Gate(a)] && [Gate(a)] + [Search(a)] == [Gate(a), Search(a)];
    assert [Gate(a), Search(a)] + [Add(a)] == [Gate(a), Search(a), Add(a)];
  }

  lemma {:induction false} Round(a: Thread, b: Thread, run: seq<Step>, m: nat, max: nat, hash: Thread -> int)
    requires a != b
    requires After(run, max, hash) == At(Hoard(a, m + 1, hash))
    ensures After(run + OneMore(a, b, m + 1), max, hash) == At(Hoard(a, m + 2, hash))
  {
    hide Then;
    var n := m + 1;
    var freed := System(State(Row(a, m, hash) + [FREE], m + 1, m), {}, {}, HoardGrants(a, m));
    GivesLast(a, m, max, hash);
    GateOpens(freed, b, max, hash);
    var s2 := freed.(passed := {b});
    assert freed.passed + {b} == {b};
    GateOpens(s2, a, max, hash);
    assert s2.passed + {a} == {b} + {a};
    TakesLast(a, m, {b}, max, hash);
    AddsOne(a, b, n, max, hash);
    var freed' := System(State(Row(a, n, hash) + [FREE], n + 1, n), {}, {}, HoardGrants(a, n));
    GateOpens(freed', a, max, hash);
    assert freed'.passed + {a} == {} + {a};
    TakesLast(a, n, {}, max, hash);
    assert Hoard(a, n + 1, hash).(passed := {}) == Hoard(a, n + 1, hash);
    NineMore(run, OneMore(a, b, n), max, hash);
  }

  lemma {:induction false} NineMore(run: seq<Step>, more: seq<Step>, max: nat, hash: Thread -> int)
    requires |more| == 9
    ensures var r0 := After(run, max, hash);
            var r3 := Then(Then(Then(r0, more[0], max, hash), more[1], max, hash), more[2], max, hash);
            var r6 := Then(Then(Then(r3, more[3], max, hash), more[4], max, hash), more[5], max, hash);
            var r9 := Then(Then(Then(r6, more[6], max, hash), more[7], max, hash), more[8], max, hash);
            After(run + more, max, hash) == r9
  {
    hide Then, After;
    var a, b, c := [more[0], more[1], more[2]], [more[3], more[4], more[5]], [more[6], more[7], more[8]];
    ThreeMore(run, more[0], more[1], more[2], max, hash);
    ThreeMore(run + a, more[3], more[4], more[5], max, hash);
    ThreeMore(run + a + b, more[6], more[7], more[8], max, hash);
    assert more == a + b + c;
    assert run + (a + b + c) == run + a + b + c;
  }

  lemma {:induction false} ThreeMore(run: seq<Step>, a: Step, b: Step, c: Step, max: nat, hash: Thread -> int)
    ensures After(run + [a, b, c], max, hash) ==
            Then(Then(Then(After(run, max, hash), a, max, hash), b, max, hash), c, max, hash)
  {
    hide Then, After;
    AfterMore(run, a, max, hash);
    AfterMore(run + [a], b, max, hash);
    AfterMore(run + [a] + [b], c, max, hash);
    assert run + [a] + [b] + [c] == run + [a, b, c];
  }

  // ----- exactly when the maximum holds -----

  ghost predicate ByThreads(run: seq<Step>, threads: set<Thread>) {
    forall i | 0 <= i < |run| :: run[i].t in threads
  }

  // The pool as it is after a run is within the maximum.
  ghost predicate Within(run: seq<Step>, max: nat, hash: Thread -> int) {
    After(run, max, hash).At? ==> |After(run, max, hash).system.pool.handles| <= max
  }

  // Only threads that take steps are behind the gate.
  lemma {:induction false} OnlyThose(run: seq<Step>, threads: set<Thread>, max: nat, hash: Thread -> int)
    requires ByThreads(run, threads) && After(run, max, hash).At?
    ensures After(run, max, hash).system.passed <= threads && After(run, max, hash).system.missed <= threads
  {
    if run != [] {
      hide Choice;
      OnlyThose(run[..|run| - 1], threads, max, hash);
    }
  }

  // One thread alone never overlaps with itself.
  lemma {:induction false} AloneIsSerial(run: seq<Step>, t: Thread, max: nat, hash: Thread -> int)
    requires ByThreads(run, {t}) && After(run, max, hash).At?
    ensures Serial(run, max, hash)
  {
    if run != [] {
      var r := run[..|run| - 1];
      AloneIsSerial(r, t, max, hash);
      OnlyThose(r, {t}, max, hash);
      var s := After(r, max, hash).system;
      assert run[|run| - 1].t == t;
      assert t !in s.passed ==> s.passed == {};
      assert t !in s.missed ==> s.missed == {};
    }
  }

  lemma {:induction false} HoardBy(a: Thread, b: Thread, n: nat)
    requires n > 0
    ensures ByThreads(HoardRun(a, b, n), {a, b})
  {
    if n > 1 {
      HoardBy(a, b, n - 1);
    }
  }

  // Every run of these threads stays within a maximum if and only if there
  // is at most one of them.
  lemma {:induction false} WithinExactly(threads: set<Thread>, max: nat, hash: Thread -> int)
    requires max != 0
    ensures (forall run: seq<Step> | ByThreads(run, threads) :: Within(run, max, hash)) <==> |threads| <= 1
  {
    if |threads| <= 1 {
      forall run: seq<Step> | ByThreads(run, threads) ensures Within(run, max, hash) {
        if After(run, max, hash).At? && run != [] {
          AtMostOne(threads, run[0].t);
          AloneIsSerial(run, run[0].t, max, hash);
          SerialBounded(run, max, hash);
        }
      }
    } else {
      var a: Thread :| a in threads;
      AnotherOne(threads, a);
      var b: Thread :| b in threads && b != a;
      var run := HoardRun(a, b, max + 1);
      HoardBy(a, b, max + 1);
      Outgrown(a, b, max + 1, max, hash);
      assert ByThreads(run, threads) && !Within(run, max, hash);
    }
  }

  lemma {:induction false} AtMostOne(threads: set<Thread>, t: Thread)
    requires |threads| <= 1 && t in threads
    ensures threads == {t}
  {
    assert threads == (threads - {t}) + {t} && |threads - {t}| == 0;
  }

  lemma {:induction false} AnotherOne(threads: set<Thread>, t: Thread)
    requires |threads| > 1 && t in threads
    ensures exists u: Thread :: u in threads && u != t
  {
    assert threads == (threads - {t}) + {t} && |threads - {t}| > 0;
    var u: Thread :| u in threads - {t};
  }
}
