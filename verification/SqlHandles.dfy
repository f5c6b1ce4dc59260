/** The handle pool as it is changed in place, each method under its lock. */
module SqlHandles {
  import opened SqlPool
  import opened SqlRuns

  ghost predicate HeldByOthers(grants: multiset<(Thread, nat)>, t: Thread, h: nat) {
    exists u: Thread :: u != t && (u, h) in grants
  }

  // How long a thread sleeps at the gate, once.
  const YIELD := 100000

  class Pool {
    var handles: seq<Handle>
    var totalHandles: int
    var totalUsed: int
    ghost var grants: multiset<(Thread, nat)>  // given out and not yet given back

    ghost function Abs(): State
      reads this
    {
      State(handles, totalHandles, totalUsed)
    }

    // What every interleaving keeps.
    ghost predicate Valid()
      reads this
    {
      Inv(System(Abs(), {}, {}, grants))
    }

    constructor ()
      ensures Valid() && handles == [] && grants == multiset{}
    {
      handles, totalHandles, totalUsed, grants := [], 0, 0, multiset{};
    }

    // The gate of _agc_sql_get_handle; a step through it is possible when
    // it is open.
    method GateOpen(max: nat) returns (open: bool)
      requires Valid()
      ensures !open <==> max != 0 && |handles| >= max && Sum(handles) >= |handles|
    {
      open := !(max != 0 && totalHandles >= max && totalUsed >= totalHandles);
    }

    // The two scans: first an unused handle of the thread's own hash, then
    // any that it can lock; -1 if there is none.
    method Scan(t: Thread, hash: int) returns (r: int)
      ensures r == Choice(handles, t, hash) && Picked(handles, t, hash, r)
    {
      var i := |handles|;
      r := -1;
      while i > 0 && r < 0
        invariant 0 <= i <= |handles| && -1 <= r < |handles|
        invariant OwnHandle(handles, t, hash, |handles|) == if r >= 0 then r else OwnHandle(handles, t, hash, i)
      {
        i := i - 1;
        if handles[i].hash == hash && handles[i].useCount == 0 && Lockable(handles[i], t) {
          r := i;
        }
      }
      if r < 0 {
        i := |handles|;
        while i > 0 && r < 0
          invariant 0 <= i <= |handles| && -1 <= r < |handles|
          invariant AnyHandle(handles, t, |handles|) == if r >= 0 then r else AnyHandle(handles, t, i)
        {
          i := i - 1;
          if Lockable(handles[i], t) {
            r := i;
          }
        }
      }
      ChoicePicked(handles, t, hash);
    }

    // get_freehandle: the handle found is held by nobody else; nothing
    // found means that others hold them all.
    method GetFree(t: Thread, hash: int) returns (r: int)
      requires Valid()
      modifies this
      ensures Valid() && r == Choice(old(handles), t, hash) && Picked(old(handles), t, hash, r)
      ensures Abs() == if r < 0 then old(Abs()) else Taken(old(Abs()), t, hash, r)
      ensures r >= 0 ==>
                && r < |handles| && grants == old(grants) + multiset{(t, r)}
                && handles == old(handles)[r := handles[r]] && handles[r].hash == hash
                && forall u: Thread | u != t :: (u, r) !in grants
      ensures r < 0 ==>
                && grants == old(grants)
                && forall h | 0 <= h < |handles| :: HeldByOthers(grants, t, h)
    {
      hide Inv, Choice, Picked;
      r := Scan(t, hash);
      ChoiceLockable(handles, t, hash);
      ghost var s := System(Abs(), {}, {}, grants);
      if r >= 0 {
        TakenInv(s, t, hash, r);
        var x := Locked(handles[r], t);
        handles := handles[r := x.(useCount := x.useCount + 1, hash := hash)];
        totalUsed := totalUsed + 1;
        grants := grants + multiset{(t, r)};
        OnlyMine(System(Abs(), {}, {}, grants), t, r);
      } else {
        forall h | 0 <= h < |handles| ensures HeldByOthers(grants, t, h) {
          HeldByOther(s, t, h);
        }
      }
    }

    // add_handle: a handle that nobody had before, held once by t.
    method AddHandle(t: Thread, hash: int) returns (h: nat)
      requires Valid()
      modifies this
      ensures Valid() && Abs() == Added(old(Abs()), t, hash)
      ensures h == |old(handles)| && |handles| == h + 1 && grants == old(grants) + multiset{(t, h)}
      ensures forall u: Thread :: (u, h) !in old(grants)
      ensures handles[..h] == old(handles) && handles[h].hash == hash
    {
      AddedInv(System(Abs(), {}, {}, grants), t, hash);
      h := |handles|;
      totalUsed := totalUsed + 1;
      handles := handles + [Handle(Nobody, 0, 1, hash)];
      totalHandles := totalHandles + 1;
      handles := handles[h := Locked(handles[h], t)];
      grants := grants + multiset{(t, h)};
    }

    // agc_sql_release_handle by a holder: one grant less; after the last
    // one any thread can lock the handle.
    method ReleaseHandle(t: Thread, h: nat)
      requires Valid() && (t, h) in grants
      modifies this
      ensures Valid() && grants == old(grants) - multiset{(t, h)}
      ensures h < |old(handles)| == |handles| && handles == old(handles)[h := handles[h]]
      ensures (t, h) !in grants ==> handles[h].hash == RELEASED_HASH && forall u: Thread :: Lockable(handles[h], u)
    {
      hide Inv, Released;
      ghost var s := System(Abs(), {}, {}, grants);
      OnlyMine(s, t, h);
      CanRelease(s, t, h, 0);
      ReleasedInv(s, t, h);
      InUse(s, t, h);
      var x := handles[h];
      if x.useCount != 0 {
        x := x.(useCount := x.useCount - 1);
        if x.useCount == 0 {
          x := x.(hash := RELEASED_HASH);
        }
      }
      handles := handles[h := Unlocked(x)];
      totalUsed := totalUsed - 1;
      grants := grants - multiset{(t, h)};
      assert Abs() == Released(s.pool, h) by {
        ReleasedIs(s.pool, h);
      }
      FreeOrHeld(System(Abs(), {}, {}, grants), t, h);
    }

    // _agc_sql_get_handle without another thread in between; connected
    // says whether the database can be reached. A thread that finds the
    // gate closed comes back only if its timeout is shorter than a yield.
    method GetHandle(t: Thread, hash: int, max: nat, timeout: nat, connected: bool) returns (h: int)
      requires Valid() && (max != 0 ==> |handles| <= max)
      requires Open(Abs(), max) || 0 < timeout < YIELD
      modifies this
      ensures Valid() && (max != 0 ==> |handles| <= max)
      ensures h >= 0 ==> grants == old(grants) + multiset{(t, h)} && forall u: Thread | u != t :: (u, h) !in grants
      ensures h < 0 ==> Abs() == old(Abs()) && grants == old(grants)
      ensures h < 0 && old(Open(Abs(), max)) ==>
                !connected && forall k | 0 <= k < |handles| :: HeldByOthers(grants, t, k)
    {
      var open := GateOpen(max);
      if !open {
        return -1;
      }
      h := Pass(t, hash, max, connected);
    }

    method Pass(t: Thread, hash: int, max: nat, connected: bool) returns (h: int)
      requires Valid() && (max != 0 ==> |handles| <= max) && Open(Abs(), max)
      modifies this
      ensures Valid() && (max != 0 ==> |handles| <= max)
      ensures h >= 0 ==> grants == old(grants) + multiset{(t, h)} && forall u: Thread | u != t :: (u, h) !in grants
      ensures h < 0 ==> Abs() == old(Abs()) && grants == old(grants)
      ensures h < 0 ==> !connected && forall k | 0 <= k < |handles| :: HeldByOthers(grants, t, k)
    {
      hide Inv, Choice, HeldByOthers;
      Counts(System(Abs(), {}, {}, grants));
      h := GetFree(t, hash);
      if h < 0 {
        AllHeld(System(Abs(), {}, {}, grants), t);
        if connected {
          h := AddHandle(t, hash);
          OnlyMine(System(Abs(), {}, {}, grants), t, h);
        }
      } else {
        Counts(System(Abs(), {}, {}, grants));
      }
    }
  }

  lemma {:induction false} ReleasedIs(s: State, h: nat)
    requires h < |s.handles| && s.handles[h].depth > 0
    ensures var x := s.handles[h];
            var y := if x.useCount == 0 then x
                     else x.(useCount := x.useCount - 1, hash := if x.useCount == 1 then RELEASED_HASH else x.hash);
            Released(s, h) == State(s.handles[h := Unlocked(y)], s.totalHandles, s.totalUsed - 1)
  {
  }

  lemma {:induction false} Counts(s: System)
    requires Inv(s)
    ensures s.pool.totalHandles == |s.pool.handles| && s.pool.totalUsed == Sum(s.pool.handles)
  {
  }

  // A handle's grants are all one thread's.
  lemma {:induction false} OnlyMine(s: System, t: Thread, h: nat)
    requires Inv(s) && (t, h) in s.grants
    ensures forall u: Thread | u != t :: (u, h) !in s.grants
  {
    assert HandleOk(h, s.pool.handles[h], s.grants);
  }

  // A handle that t cannot lock is another thread's.
  lemma {:induction false} HeldByOther(s: System, t: Thread, h: nat)
    requires Inv(s) && h < |s.pool.handles| && !Lockable(s.pool.handles[h], t)
    ensures HeldByOthers(s.grants, t, h)
  {
    var x := s.pool.handles[h];
    assert HandleOk(h, x, s.grants);
    assert (x.owner.thread, h) in s.grants;
  }

  lemma {:induction false} FreeOrHeld(s: System, t: Thread, h: nat)
    requires Inv(s) && h < |s.pool.handles| && forall u: Thread | u != t :: (u, h) !in s.grants
    ensures (t, h) !in s.grants ==> s.pool.handles[h].useCount == 0
    ensures (t, h) !in s.grants ==> forall u: Thread :: Lockable(s.pool.handles[h], u)
  {
    var x := s.pool.handles[h];
    assert HandleOk(h, x, s.grants);
    if x.owner.By? {
      assert s.grants[(x.owner.thread, h)] == x.depth;
    }
  }

  // If others hold every handle, there are at least as many uses.
  lemma {:induction false} AllHeld(s: System, t: Thread)
    requires Inv(s) && forall h | 0 <= h < |s.pool.handles| :: HeldByOthers(s.grants, t, h)
    ensures s.pool.totalUsed >= s.pool.totalHandles && s.pool.totalHandles == |s.pool.handles|
  {
    var hs := s.pool.handles;
    hide Inv, HandleOk, Sum;
    Counts(s);
    forall h | 0 <= h < |hs| ensures hs[h].useCount > 0 {
      assert HeldByOthers(s.grants, t, h);
      var u: Thread :| u != t && (u, h) in s.grants;
      InUse(s, u, h);
    }
    Pigeonhole(hs);
  }

  lemma {:induction false} InUse(s: System, t: Thread, h: nat)
    requires Inv(s) && (t, h) in s.grants
    ensures h < |s.pool.handles| && s.pool.handles[h].useCount > 0
  {
    assert HandleOk(h, s.pool.handles[h], s.grants);
  }
}
