/** The pool of database handles that threads take, nest and give back. */
module SqlPool {
  type Thread = nat

  datatype Owner = Nobody | By(thread: Thread)

  // A handle with its nested mutex: who holds it and how often.
  datatype Handle = Handle(owner: Owner, depth: nat, useCount: nat, hash: int)

  // The list head is the last handle here, so that a handle keeps its
  // place: handle h is handles[h].
  datatype State = State(handles: seq<Handle>, totalHandles: int, totalUsed: int)

  const RELEASED_HASH := 1

  // ----- one acquire, one release -----

  // agc_mutex_trylock on a nested mutex.
  predicate Lockable(h: Handle, t: Thread) {
    h.owner == Nobody || h.owner == By(t)
  }

  function Locked(h: Handle, t: Thread): Handle {
    h.(owner := By(t), depth := h.depth + 1)
  }

  function Unlocked(h: Handle): Handle
    requires h.depth > 0
  {
    h.(owner := if h.depth == 1 then Nobody else h.owner, depth := h.depth - 1)
  }

  // The two scans of get_freehandle, from the n-th handle back.
  function OwnHandle(hs: seq<Handle>, t: Thread, hash: int, n: nat): (r: int)
    requires n <= |hs|
    ensures -1 <= r < n
  {
    if n == 0 then -1
    else if hs[n - 1].hash == hash && hs[n - 1].useCount == 0 && Lockable(hs[n - 1], t) then n - 1
    else OwnHandle(hs, t, hash, n - 1)
  }

  function AnyHandle(hs: seq<Handle>, t: Thread, n: nat): (r: int)
    requires n <= |hs|
    ensures -1 <= r < n
  {
    if n == 0 then -1 else if Lockable(hs[n - 1], t) then n - 1 else AnyHandle(hs, t, n - 1)
  }

  function Choice(hs: seq<Handle>, t: Thread, hash: int): (r: int)
    ensures -1 <= r < |hs|
  {
    var own := OwnHandle(hs, t, hash, |hs|);
    if own >= 0 then own else AnyHandle(hs, t, |hs|)
  }

  // Handle i was last used by a thread of this hash and nobody uses it.
  predicate Cached(hs: seq<Handle>, t: Thread, hash: int, i: int)
    requires 0 <= i < |hs|
  {
    hs[i].hash == hash && hs[i].useCount == 0 && Lockable(hs[i], t)
  }

  // What get_freehandle finds: of the handles cached for the thread the one
  // nearest to the list head; if there is none, of all those that it can
  // lock; if there is none, nothing.
  ghost predicate Picked(hs: seq<Handle>, t: Thread, hash: int, r: int) {
    if exists i :: 0 <= i < |hs| && Cached(hs, t, hash, i) then
      0 <= r < |hs| && Cached(hs, t, hash, r) && forall i | r < i < |hs| :: !Cached(hs, t, hash, i)
    else if exists i :: 0 <= i < |hs| && Lockable(hs[i], t) then
      0 <= r < |hs| && Lockable(hs[r], t) && forall i | r < i < |hs| :: !Lockable(hs[i], t)
    else
      r == -1
  }

  lemma {:induction false} PickedOnce(hs: seq<Handle>, t: Thread, hash: int, r: int, q: int)
    requires Picked(hs, t, hash, r) && Picked(hs, t, hash, q)
    ensures r == q
  {
  }

  lemma {:induction false} ChoicePicked(hs: seq<Handle>, t: Thread, hash: int)
    ensures Picked(hs, t, hash, Choice(hs, t, hash))
  {
    OwnPicked(hs, t, hash, |hs|);
    AnyPicked(hs, t, |hs|);
  }

  lemma {:induction false} OwnPicked(hs: seq<Handle>, t: Thread, hash: int, n: nat)
    requires n <= |hs|
    ensures var r := OwnHandle(hs, t, hash, n);
            (r >= 0 ==> Cached(hs, t, hash, r)) && forall i | r < i < n :: !Cached(hs, t, hash, i)
  {
    if n > 0 {
      OwnPicked(hs, t, hash, n - 1);
    }
  }

  lemma {:induction false} AnyPicked(hs: seq<Handle>, t: Thread, n: nat)
    requires n <= |hs|
    ensures var r := AnyHandle(hs, t, n);
            (r >= 0 ==> Lockable(hs[r], t)) && forall i | r < i < n :: !Lockable(hs[i], t)
  {
    if n > 0 {
      AnyPicked(hs, t, n - 1);
    }
  }

  // A thread that holds the newest handle gets it again, although an older
  // one is free, if that is not cached for it.
  lemma {:induction false} ReEnters(t: Thread, hash: int)
    requires hash != RELEASED_HASH
    ensures Picked([Handle(Nobody, 0, 0, RELEASED_HASH), Handle(By(t), 1, 1, hash)], t, hash, 1)
    ensures Choice([Handle(Nobody, 0, 0, RELEASED_HASH), Handle(By(t), 1, 1, hash)], t, hash) == 1
  {
    var hs := [Handle(Nobody, 0, 0, RELEASED_HASH), Handle(By(t), 1, 1, hash)];
    assert Lockable(hs[1], t) && !Cached(hs, t, hash, 0) && !Cached(hs, t, hash, 1);
    ChoicePicked(hs, t, hash);
    PickedOnce(hs, t, hash, 1, Choice(hs, t, hash));
  }

  function Taken(s: State, t: Thread, hash: int, h: nat): State
    requires h < |s.handles|
  {
    var x := Locked(s.handles[h], t).(useCount := s.handles[h].useCount + 1, hash := hash);
    State(s.handles[h := x], s.totalHandles, s.totalUsed + 1)
  }

  function Added(s: State, t: Thread, hash: int): State {
    State(s.handles + [Handle(By(t), 1, 1, hash)], s.totalHandles + 1, s.totalUsed + 1)
  }

  function Released(s: State, h: nat): State
    requires h < |s.handles| && s.handles[h].depth > 0
  {
    var x := s.handles[h];
    var count := if x.useCount == 0 then 0 else x.useCount - 1;
    var hash := if x.useCount == 1 then RELEASED_HASH else x.hash;
    State(s.handles[h := Unlocked(x).(useCount := count, hash := hash)], s.totalHandles, s.totalUsed - 1)
  }

  // The gate lets an acquire pass.
  predicate Open(s: State, max: nat) {
    max == 0 || s.totalHandles < max || s.totalUsed < s.totalHandles
  }

  const EMPTY := State([], 0, 0)
}
