/** The re-entrant lock over a mutex, as the interleaved steps of any number of tasks. */
module Locks {
  import opened Options
  import opened Queues

  /** Where a task stands: outside both calls; in mutex_lock's retry loop (woken or for the first time); asleep there; and
      between the assignments of lock_acquire and of lock_release. */
  datatype Place = Outside | Locking(woken: bool) | Asleep | Taken | Marked | Unmarked | Cleared

  /** The mutex (value, waiters with the latest first), the lock (holder, repeat), and what each task is about;
      depth counts a task's acquires that it has not matched by a release. */
  datatype State = State(value: bool, waiters: seq<nat>, holder: Option<nat>, repeat: nat,
                         places: map<nat, Place>, depths: map<nat, nat>)

  const INITIAL := State(false, [], None, 0, map[], map[])

  function At(s: State, t: nat): Place {
    if t in s.places then s.places[t] else Outside
  }

  function Depth(s: State, t: nat): nat {
    if t in s.depths then s.depths[t] else 0
  }

  function Move(s: State, t: nat, p: Place): State {
    s.(places := s.places[t := p])
  }

  // ---------- the steps: code between two points at which another task can run ----------

  /** lock_acquire: the holder goes deeper, anybody else enters mutex_lock. */
  function Acquire(s: State, t: nat): State {
    if s.holder == Some(t) then s.(repeat := s.repeat + 1, depths := s.depths[t := Depth(s, t) + 1])
    else Move(s, t, Locking(false))
  }

  /** One turn of mutex_lock's loop. */
  function Attempt(s: State, t: nat): State {
    if s.value then Move(s, t, Asleep).(waiters := [t] + s.waiters) else Move(s, t, Taken).(value := true)
  }

  function SetHolder(s: State, t: nat): State {
    Move(s, t, Marked).(holder := Some(t))
  }

  function SetRepeat(s: State, t: nat): State {
    Move(s, t, Outside).(repeat := 1, depths := s.depths[t := 1])
  }

  /** lock_release: up to where the holder is cleared. */
  function Release(s: State, t: nat): State {
    if s.repeat > 1 then s.(repeat := s.repeat - 1, depths := s.depths[t := if Depth(s, t) > 0 then Depth(s, t) - 1 else 0])
    else Move(s, t, Unmarked).(holder := None)
  }

  function ClearRepeat(s: State, t: nat): State {
    Move(s, t, Cleared).(repeat := 0, depths := s.depths[t := 0])
  }

  /** mutex_unlock: whoever has waited longest is woken into the retry loop. */
  function Unlock(s: State, t: nat): State {
    var u := Move(s, t, Outside).(value := false);
    if s.waiters == [] then u else
      var last := |s.waiters| - 1;
      Move(u, s.waiters[last], Locking(true)).(waiters := s.waiters[..last])
  }

  datatype Event =
    | DoAcquire(t: nat) | DoAttempt(t: nat) | DoSetHolder(t: nat) | DoSetRepeat(t: nat)
    | DoRelease(t: nat) | DoClearRepeat(t: nat) | DoUnlock(t: nat)

  /** A task releases only what it has acquired; every other order of steps is possible. */
  ghost predicate Step(s: State, e: Event, s': State) {
    match e
    case DoAcquire(t) => At(s, t).Outside? && s' == Acquire(s, t)
    case DoAttempt(t) => At(s, t).Locking? && s' == Attempt(s, t)
    case DoSetHolder(t) => At(s, t).Taken? && s' == SetHolder(s, t)
    case DoSetRepeat(t) => At(s, t).Marked? && s' == SetRepeat(s, t)
    case DoRelease(t) => At(s, t).Outside? && Depth(s, t) > 0 && s' == Release(s, t)
    case DoClearRepeat(t) => At(s, t).Unmarked? && s' == ClearRepeat(s, t)
    case DoUnlock(t) => At(s, t).Cleared? && s' == Unlock(s, t)
  }

  // ---------- what every step keeps ----------

  /** The mutex is t's: from taking it to giving it back. */
  ghost predicate Owns(s: State, t: nat) {
    match At(s, t)
    case Outside => Depth(s, t) > 0
    case Locking(_) => false
    case Asleep => false
    case _ => true
  }

  /** What the lock's fields say, according to where task t stands. */
  ghost predicate Agrees(s: State, t: nat) {
    match At(s, t)
    case Outside => (if Depth(s, t) > 0 then s.holder == Some(t) && s.repeat == Depth(s, t) else s.holder != Some(t))
    case Locking(_) => Depth(s, t) == 0 && s.holder != Some(t)
    case Asleep => Depth(s, t) == 0 && s.holder != Some(t)
    case Taken => Depth(s, t) == 0 && s.holder == None && s.repeat == 0
    case Marked => Depth(s, t) == 0 && s.holder == Some(t) && s.repeat == 0
    case Unmarked => Depth(s, t) == 1 && s.holder == None && s.repeat == 1
    case Cleared => Depth(s, t) == 0 && s.holder == None && s.repeat == 0
  }

  /** At most one task owns the mutex, and one does exactly while its value is set. */
  ghost predicate OneOwner(s: State) {
    && (forall t: nat, u: nat | Owns(s, t) && Owns(s, u) :: t == u)
    && (s.value <==> exists t: nat :: Owns(s, t))
    && (!s.value ==> s.holder == None && s.repeat == 0)
  }

  ghost predicate Queued(s: State) {
    NoDup(s.waiters) && forall t: nat :: t in s.waiters <==> At(s, t) == Asleep
  }

  /** While the mutex is free and somebody sleeps, somebody who was woken is about to try again. */
  ghost predicate NoLostWakeup(s: State) {
    !s.value && s.waiters != [] ==> exists t: nat :: At(s, t) == Locking(true)
  }

  ghost predicate Inv(s: State) {
    OneOwner(s) && (forall t: nat :: Agrees(s, t)) && Queued(s) && NoLostWakeup(s)
  }

  /** The assertions of mutex.c. */
  lemma AssertionsHold(s: State, t: nat)
    requires Inv(s)
    ensures At(s, t).Outside? && Depth(s, t) > 0 ==> s.holder == Some(t) && s.repeat >= 1
    ensures At(s, t).Marked? ==> s.repeat == 0
    ensures At(s, t).Cleared? ==> s.value
  {
    assert Agrees(s, t);
    if At(s, t).Cleared? {
      assert Owns(s, t);
    }
  }

  lemma AcquireKeeps(s: State, t: nat)
    requires Inv(s) && At(s, t).Outside?
    ensures Inv(Acquire(s, t))
  {
    var s' := Acquire(s, t);
    assert Agrees(s, t);
    assert forall u: nat :: Owns(s', u) <==> Owns(s, u);
    forall u: nat
      ensures Agrees(s', u)
    {
      assert Agrees(s, u);
    }
    assert Queued(s') by {
      assert forall u: nat | u != t :: At(s', u) == At(s, u);
    }
    assert NoLostWakeup(s') by {
      if !s.value && s.waiters != [] {
        var u: nat :| At(s, u) == Locking(true);
        assert At(s', u) == Locking(true);
      }
    }
  }

  lemma AttemptKeeps(s: State, t: nat)
    requires Inv(s) && At(s, t).Locking?
    ensures Inv(Attempt(s, t))
  {
    var s' := Attempt(s, t);
    assert forall u: nat | u != t :: At(s', u) == At(s, u);
    assert forall u: nat :: Owns(s', u) <==> Owns(s, u) || (!s.value && u == t);
    forall u: nat
      ensures Agrees(s', u)
    {
      assert Agrees(s, u);
      assert Owns(s, u) ==> s.value;
    }
    if s.value {
      NoDupPush(t, s.waiters);
      var u: nat :| Owns(s, u);
      assert Owns(s', u);
    } else {
      assert Owns(s', t);
    }
  }

  lemma SetHolderKeeps(s: State, t: nat)
    requires Inv(s) && At(s, t).Taken?
    ensures Inv(SetHolder(s, t))
  {
    OwnerMoves(s, t, SetHolder(s, t));
  }

  lemma SetRepeatKeeps(s: State, t: nat)
    requires Inv(s) && At(s, t).Marked?
    ensures Inv(SetRepeat(s, t))
  {
    OwnerMoves(s, t, SetRepeat(s, t));
  }

  lemma ReleaseKeeps(s: State, t: nat)
    requires Inv(s) && At(s, t).Outside? && Depth(s, t) > 0
    ensures Inv(Release(s, t))
  {
    assert Agrees(s, t);
    OwnerMoves(s, t, Release(s, t));
  }

  lemma ClearRepeatKeeps(s: State, t: nat)
    requires Inv(s) && At(s, t).Unmarked?
    ensures Inv(ClearRepeat(s, t))
  {
    OwnerMoves(s, t, ClearRepeat(s, t));
  }

  /** A step of the owner that leaves it the owner disturbs nobody else. */
  lemma OwnerMoves(s: State, t: nat, s': State)
    requires Inv(s) && Owns(s, t) && Owns(s', t) && s'.value == s.value && s'.waiters == s.waiters
    requires forall u: nat | u != t :: At(s', u) == At(s, u) && Depth(s', u) == Depth(s, u)
    requires !At(s, t).Asleep? && !At(s', t).Asleep? && Agrees(s, t) ==> Agrees(s', t)
    requires s'.holder == s.holder || s'.holder == None || s'.holder == Some(t)
    ensures Inv(s')
  {
    assert s.value;
    assert Agrees(s, t);
    assert forall u: nat :: Owns(s', u) <==> Owns(s, u);
    forall u: nat
      ensures Agrees(s', u)
    {
      assert Agrees(s, u);
      assert u != t ==> !Owns(s, u);
    }
  }

  /** After mutex_unlock nobody owns the mutex, and everybody's place agrees with the cleared lock. */
  lemma UnlockFrees(s: State, t: nat, u: nat)
    requires Inv(s) && At(s, t).Cleared?
    ensures !Owns(Unlock(s, t), u) && Agrees(Unlock(s, t), u)
  {
    hide NoLostWakeup;
    assert Agrees(s, t) && Owns(s, t) && Agrees(s, u);
    assert Owns(s, u) ==> u == t;
    if s.waiters != [] {
      assert s.waiters[|s.waiters| - 1] in s.waiters;
    }
  }

  lemma UnlockQueue(s: State, t: nat)
    requires Queued(s) && At(s, t).Cleared?
    ensures Queued(Unlock(s, t))
  {
    var s' := Unlock(s, t);
    var last := |s.waiters| - 1;
    if s.waiters != [] {
      assert s.waiters == s'.waiters + [s.waiters[last]];
      assert s.waiters[last] !in s'.waiters;
    }
    forall u: nat
      ensures u in s'.waiters <==> At(s', u) == Asleep
    {
      assert u in s.waiters <==> At(s, u) == Asleep;
      assert s.waiters != [] ==> (u in s.waiters <==> u in s'.waiters || u == s.waiters[last]);
    }
  }

  lemma UnlockKeeps(s: State, t: nat)
    requires Inv(s) && At(s, t).Cleared?
    ensures Inv(Unlock(s, t))
  {
    hide Queued, Owns;
    var s' := Unlock(s, t);
    forall u: nat
      ensures !Owns(s', u) && Agrees(s', u)
    {
      UnlockFrees(s, t, u);
    }
    assert Agrees(s, t);
    UnlockQueue(s, t);
    if s.waiters != [] {
      assert At(s', s.waiters[|s.waiters| - 1]) == Locking(true);
    }
  }

  lemma StepKeeps(s: State, e: Event, s': State)
    requires Inv(s) && Step(s, e, s')
    ensures Inv(s')
  {
    hide Inv;
    match e {
      case DoAcquire(t) => AcquireKeeps(s, t);
      case DoAttempt(t) => AttemptKeeps(s, t);
      case DoSetHolder(t) => SetHolderKeeps(s, t);
      case DoSetRepeat(t) => SetRepeatKeeps(s, t);
      case DoRelease(t) => ReleaseKeeps(s, t);
      case DoClearRepeat(t) => ClearRepeatKeeps(s, t);
      case DoUnlock(t) => UnlockKeeps(s, t);
    }
  }

  ghost predicate Run(ss: seq<State>, es: seq<Event>) {
    |ss| == |es| + 1 && ss[0] == INITIAL && forall n | 0 <= n < |es| :: Step(ss[n], es[n], ss[n + 1])
  }

  lemma {:induction false} RunKeeps(ss: seq<State>, es: seq<Event>, n: nat)
    requires Run(ss, es) && n < |ss|
    ensures Inv(ss[n])
  {
    hide Inv, Step;
    if n > 0 {
      RunKeeps(ss, es, n - 1);
      StepKeeps(ss[n - 1], es[n - 1], ss[n]);
    } else {
      InitialInv();
    }
  }

  lemma InitialInv()
    ensures Inv(INITIAL)
  {}

  // ---------- who is woken ----------

  /** The turn of the retry loop in which task u fell asleep last, before step n; -1 if it never did. */
  ghost function FellAsleep(ss: seq<State>, es: seq<Event>, n: nat, u: nat): int
    requires n <= |es| < |ss|
  {
    if n == 0 then -1
    else if es[n - 1] == DoAttempt(u) && At(ss[n], u) == Asleep then n - 1
    else FellAsleep(ss, es, n - 1, u)
  }

  lemma {:induction false} FellAsleepBefore(ss: seq<State>, es: seq<Event>, n: nat, u: nat)
    requires n <= |es| < |ss|
    ensures -1 <= FellAsleep(ss, es, n, u) < n
  {
    if n > 0 {
      FellAsleepBefore(ss, es, n - 1, u);
    }
  }

  /** From the front on, each waiter fell asleep after the one behind it. */
  ghost predicate ByArrival(ss: seq<State>, es: seq<Event>, n: nat, list: seq<nat>)
    requires n <= |es| < |ss|
  {
    && (forall a | 0 <= a < |list| :: FellAsleep(ss, es, n, list[a]) >= 0)
    && (forall a, b | 0 <= a < b < |list| :: FellAsleep(ss, es, n, list[a]) > FellAsleep(ss, es, n, list[b]))
  }

  lemma {:induction false} WaitersByArrival(ss: seq<State>, es: seq<Event>, n: nat)
    requires Run(ss, es) && n <= |es|
    ensures ByArrival(ss, es, n, ss[n].waiters)
  {
    hide Inv, Step, ByArrival;
    NobodyWaits(ss, es);
    if n > 0 {
      WaitersByArrival(ss, es, n - 1);
      RunKeeps(ss, es, n - 1);
      assert Step(ss[n - 1], es[n - 1], ss[n]);
      NextArrival(ss, es, n);
    }
  }

  lemma NobodyWaits(ss: seq<State>, es: seq<Event>)
    requires Run(ss, es)
    ensures ByArrival(ss, es, 0, ss[0].waiters)
  {}

  /** A turn that puts its task to sleep puts it in front of the list, with the latest number. */
  lemma NextArrival(ss: seq<State>, es: seq<Event>, n: nat)
    requires 0 < n <= |es| < |ss| && Inv(ss[n - 1]) && Step(ss[n - 1], es[n - 1], ss[n])
    requires ByArrival(ss, es, n - 1, ss[n - 1].waiters)
    ensures ByArrival(ss, es, n, ss[n].waiters)
  {
    hide OneOwner, Agrees, NoLostWakeup;
    var s, s' := ss[n - 1], ss[n];
    forall u: nat | u in s.waiters
      ensures FellAsleep(ss, es, n, u) == FellAsleep(ss, es, n - 1, u) < n - 1
    {
      assert At(s, u) == Asleep;
      FellAsleepBefore(ss, es, n - 1, u);
    }
    assert forall a | 0 <= a < |s.waiters| :: s.waiters[a] in s.waiters;
    assert s'.waiters == s.waiters || (s.waiters != [] && s'.waiters == s.waiters[..|s.waiters| - 1])
           || (es[n - 1].DoAttempt? && s'.waiters == [es[n - 1].t] + s.waiters && At(s', es[n - 1].t) == Asleep);
  }

  /**
   * Over every run, mutex_unlock wakes exactly one task if any sleeps for the mutex: of all of them, the one that fell asleep
   * first. All others sleep on.
   */
  lemma WakesLongest(ss: seq<State>, es: seq<Event>, n: nat, u: nat)
    requires Run(ss, es) && n < |es| && es[n].DoUnlock? && At(ss[n], u) == Asleep
    ensures exists w: nat :: At(ss[n], w) == Asleep && At(ss[n + 1], w) == Locking(true)
                             && 0 <= FellAsleep(ss, es, n, w) <= FellAsleep(ss, es, n, u)
                             && (u != w ==> At(ss[n + 1], u) == Asleep && FellAsleep(ss, es, n, w) < FellAsleep(ss, es, n, u))
  {
    hide OneOwner, Agrees, NoLostWakeup;
    RunKeeps(ss, es, n);
    WaitersByArrival(ss, es, n);
    assert Step(ss[n], es[n], ss[n + 1]);
    var list := ss[n].waiters;
    assert u in list;
    var a :| 0 <= a < |list| && list[a] == u;
    var w := list[|list| - 1];
    assert w in list && At(ss[n], w) == Asleep;
    assert At(ss[n + 1], w) == Locking(true);
  }
}
